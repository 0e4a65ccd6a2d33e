/**
 * The LaTeX-subset to HTML converter `processLaTeXContent`, shared verbatim by
 * the live preview and the PDF export.
 *
 * The converter is a fixed chain of rewrite stages, each one JavaScript
 * `String.replace`, `split`, `filter`, `map` or `join`:
 *   1. the body between the first `\begin{document}` and the first following
 *      `\end{document}`, trimmed;
 *   2. `\title`, `\author` and `\date`, looked up in the whole input;
 *   3. `\maketitle` expanded into a title block;
 *   4. `\section`, `\subsection`, `\subsubsection` into `h2`..`h4`;
 *   5. `\textbf`, `\textit`, `\underline` into `strong`, `em`, `u`;
 *   6. `itemize` and `enumerate` blocks into `ul` and `ol` lists;
 *   7. `$$..$$` then `$..$` through the math renderer;
 *   8. `\\` into `<br>`;
 *   9. blocks separated by blank lines, trimmed and wrapped in paragraphs.
 *
 * The math renderer (KaTeX) and the current date are parameters.
 */
module LatexPreview {
  import opened Wrappers
  import opened Text
  import opened Rewrite

  /** KaTeX's `renderToString(math, { displayMode })`: the HTML, or `None` when it throws. */
  type Renderer = (string, bool) -> Option<string>

  const BEGIN_DOCUMENT := "\\begin{document}"
  const END_DOCUMENT := "\\end{document}"
  const NO_DOCUMENT := "<p>Please add content between \\begin{document} and \\end{document}</p>"
  const MAKETITLE := "\\maketitle"
  const TODAY := "\\today"

  // ---------------------------------------------------------------------------
  // Stage 1: the document body

  /** `\begin{document}` at `i` and a later `\end{document}` at `j`. */
  ghost predicate Delimits(latex: string, i: nat, j: nat) {
    OccursAt(latex, BEGIN_DOCUMENT, i) && i + |BEGIN_DOCUMENT| <= j && OccursAt(latex, END_DOCUMENT, j)
  }

  /**
   * The match of `/\\begin\{document\}([\s\S]*?)\\end\{document\}/`: the first
   * `\begin{document}` and the first `\end{document}` after it, if any pair exists.
   */
  function DocumentSpan(latex: string): (r: Option<(nat, nat)>)
    ensures r.None? <==> forall i: nat, j: nat :: !Delimits(latex, i, j)
    ensures r.Some? ==> Delimits(latex, r.value.0, r.value.1)
    ensures r.Some? ==> forall i: nat :: i < r.value.0 ==> !OccursAt(latex, BEGIN_DOCUMENT, i)
    ensures r.Some? ==> forall j: nat :: r.value.0 + |BEGIN_DOCUMENT| <= j < r.value.1 ==> !OccursAt(latex, END_DOCUMENT, j)
  {
    match IndexOf(latex, BEGIN_DOCUMENT, 0)
    case None => None
    case Some(i) =>
      match IndexOf(latex, END_DOCUMENT, i + |BEGIN_DOCUMENT|)
      case None =>
        assert forall i': nat, j: nat :: Delimits(latex, i', j) ==> i <= i' && i + |BEGIN_DOCUMENT| <= j;
        None
      case Some(j) =>
        assert Delimits(latex, i, j);
        Some((i, j))
  }

  // ---------------------------------------------------------------------------
  // One-argument commands: `/\\name\{([^}]+)\}/`

  /** `x` starts with `name{a}`, where `a` is non-empty and has no `}`. */
  ghost predicate CommandShape(x: string, name: string, a: string) {
    var start := |name| + 1;
    name + "{" <= x && |a| > 0 && '}' !in a && start + |a| < |x| && x[start..start + |a|] == a && x[start + |a|] == '}'
  }

  /** The text `name{a}`. */
  function Command(name: string, a: string): string {
    name + "{" + a + "}"
  }

  lemma CommandShapeIsPrefix(x: string, name: string, a: string)
    ensures CommandShape(x, name, a) <==> |a| > 0 && '}' !in a && Command(name, a) <= x
  {
    var w := Command(name, a);
    var start := |name| + 1;
    if |a| > 0 && '}' !in a && w <= x {
      assert x[..|w|] == w;
      assert name + "{" == w[..start];
      assert x[start..start + |a|] == w[start..start + |a|];
    }
    if CommandShape(x, name, a) {
      assert x[..start + |a| + 1] == x[..start] + x[start..start + |a|] + [x[start + |a|]];
    }
  }

  /** The argument of `name{...}` at the start of `x`: everything up to the first `}`, which must not be empty. */
  function CommandArg(x: string, name: string): (r: Option<string>)
    ensures r.Some? ==> CommandShape(x, name, r.value)
    ensures forall a :: CommandShape(x, name, a) ==> r == Some(a)
  {
    var start := |name| + 1;
    if name + "{" <= x then
      match IndexOfChar(x, '}', start)
      case Some(k) =>
        if k > start then
          var a := x[start..k];
          assert forall t :: 0 <= t < |a| ==> a[t] == x[start + t];
          forall a' | CommandShape(x, name, a')
            ensures a' == a
          {
            assert forall t :: 0 <= t < |a'| ==> a'[t] == x[start + t] && a'[t] != '}';
          }
          Some(a)
        else
          assert forall a :: |a| > 0 && start + |a| <= |x| && x[start..start + |a|] == a ==> a[0] == x[start];
          None
      case None =>
        None
    else None
  }

  /** The first position, from `from` on, where `name{...}` matches. */
  function FirstCommandAt(s: string, name: string, from: nat): (r: Option<nat>)
    decreases |s| - from
    ensures r.Some? ==> from <= r.value < |s| && CommandArg(s[r.value..], name).Some?
    ensures r.Some? ==> forall p :: from <= p < r.value ==> CommandArg(s[p..], name).None?
    ensures r.None? ==> forall p :: from <= p < |s| ==> CommandArg(s[p..], name).None?
  {
    if from >= |s| then None
    else if CommandArg(s[from..], name).Some? then Some(from)
    else FirstCommandAt(s, name, from + 1)
  }

  /** `latex.match(/\\name\{([^}]+)\}/)?.[1]`: the argument of the first match anywhere in `latex`. */
  function Metadata(latex: string, name: string): Option<string> {
    match FirstCommandAt(latex, name, 0)
    case Some(p) => CommandArg(latex[p..], name)
    case None => None
  }

  // ---------------------------------------------------------------------------
  // Stage 3: `\maketitle`

  /** The title block: title, author and date, each only when its command was found; `\today` becomes `today`. */
  function TitleBlock(title: Option<string>, author: Option<string>, date: Option<string>, today: string): string {
    (if title.Some? then "<h1 class=\"title\">" + title.value + "</h1>" else "")
    + (if author.Some? then "<p class=\"author\">" + author.value + "</p>" else "")
    + (if date.Some? then "<p class=\"date\">" + (if date.value == TODAY then today else date.value) + "</p>" else "")
  }

  /**
   * `content.replace(/\\maketitle/g, titleSection)` when the body contains
   * `\maketitle`. The title block is a replacement STRING, so its `$` patterns
   * are interpreted by JavaScript.
   */
  function ExpandMaketitle(content: string, block: string): string {
    if Contains(content, MAKETITLE) then ReplaceAllTemplate(content, MAKETITLE, block, 0) else content
  }

  // ---------------------------------------------------------------------------
  // Stages 4 and 5: headings and text formatting

  /** What a command pass puts in place of `name{a}`: the argument between the pass's two tags. */
  function CommandOutput(open: string, a: string, close: string): string {
    open + a + close
  }

  /** `name{a}` at the start becomes its output. */
  function CommandHit(x: string, name: string, open: string, close: string): Option<Hit> {
    match CommandArg(x, name)
    case Some(a) => Some(Hit(|name| + |a| + 2, CommandOutput(open, a, close)))
    case None => None
  }

  function CommandRule(name: string, open: string, close: string): Rule {
    x => CommandHit(x, name, open, close)
  }

  const SECTION := CommandRule("\\section", "<h2>", "</h2>")
  const SUBSECTION := CommandRule("\\subsection", "<h3>", "</h3>")
  const SUBSUBSECTION := CommandRule("\\subsubsection", "<h4>", "</h4>")
  const TEXTBF := CommandRule("\\textbf", "<strong>", "</strong>")
  const TEXTIT := CommandRule("\\textit", "<em>", "</em>")
  const UNDERLINE := CommandRule("\\underline", "<u>", "</u>")

  function Headings(s: string): string {
    GlobalReplace(GlobalReplace(GlobalReplace(s, SECTION), SUBSECTION), SUBSUBSECTION)
  }

  function TextFormatting(s: string): string {
    GlobalReplace(GlobalReplace(GlobalReplace(s, TEXTBF), TEXTIT), UNDERLINE)
  }

  // ---------------------------------------------------------------------------
  // Stage 6: lists

  const LI := "<li>"

  /** `/\\item\s/` matches at the start of `x`. */
  predicate ItemAt(x: string) {
    "\\item" <= x && |x| > 5 && IsWs(x[5])
  }

  /** `replace(/\\item\s/g, "<li>")`. */
  const ITEM: Rule := x => if ItemAt(x) then Some(Hit(6, LI)) else None

  /** The length of the `\n\s*` in front of a `<li>`, when `x` starts with one. */
  function GapBeforeItem(x: string): Option<nat> {
    if x != [] && x[0] == '\n' && LI <= x[1 + LeadingWs(x[1..])..] then Some(1 + LeadingWs(x[1..])) else None
  }

  /** `replace(/\n\s*(?=<li>)/g, "</li>\n")`. */
  const CLOSE_ITEM: Rule := x => match GapBeforeItem(x) case Some(n) => Some(Hit(n, "</li>\n")) case None => None

  /** The two chained replacements applied to the text between `\begin{..}` and `\end{..}`. */
  function ListItems(items: string): string {
    GlobalReplace(GlobalReplace(items, ITEM), CLOSE_ITEM)
  }

  /** What a list block becomes: `<tag>`, the rewritten items, then `</li></tag>`. */
  function ListBlock(tag: string, body: string): string {
    "<" + tag + ">" + body + "</li></" + tag + ">"
  }

  /** `\begin{env}`. */
  function BeginTag(env: string): string {
    "\\begin{" + env + "}"
  }

  /** `\end{env}`. */
  function EndTag(env: string): string {
    "\\end{" + env + "}"
  }

  /**
   * `/\\begin\{env\}([\s\S]*?)\\end\{env\}/` at the start of `x`: the length of
   * the match, which ends at the first `\end{env}` after the begin, and the text
   * between the two tags.
   */
  function EnvironmentBody(x: string, env: string): Option<(nat, string)> {
    var open := BeginTag(env);
    var close := EndTag(env);
    if open <= x then
      match IndexOf(x, close, |open|)
      case Some(j) => Some((j + |close|, x[|open|..j]))
      case None => None
    else None
  }

  /** A list environment becomes `<tag>` + its rewritten items + `</li></tag>`. */
  function ListHit(x: string, env: string, tag: string): Option<Hit> {
    match EnvironmentBody(x, env)
    case Some((n, items)) => Some(Hit(n, ListBlock(tag, ListItems(items))))
    case None => None
  }

  function ListRule(env: string, tag: string): Rule {
    x => ListHit(x, env, tag)
  }

  const ITEMIZE := ListRule("itemize", "ul")
  const ENUMERATE := ListRule("enumerate", "ol")

  function Lists(s: string): string {
    GlobalReplace(GlobalReplace(s, ITEMIZE), ENUMERATE)
  }

  // ---------------------------------------------------------------------------
  // Stage 7: math

  /** What a math span becomes: the renderer's HTML, or an error span quoting the formula. */
  function RenderOrError(render: Renderer, math: string, display: bool): string {
    match render(math, display)
    case Some(html) => html
    case None => "<span class=\"math-error\">[Math Error: " + math + "]</span>"
  }

  /** `/\$\$([^$]+)\$\$/` at the start of `x`. */
  function DisplayHit(x: string, render: Renderer): Option<Hit> {
    if "$$" <= x then
      match IndexOfChar(x, '$', 2)
      case Some(k) =>
        if k > 2 && k + 1 < |x| && x[k + 1] == '$' then Some(Hit(k + 2, RenderOrError(render, x[2..k], true)))
        else None
      case None => None
    else None
  }

  /** `/\$([^$]+)\$/` at the start of `x`. */
  function InlineHit(x: string, render: Renderer): Option<Hit> {
    if x != [] && x[0] == '$' then
      match IndexOfChar(x, '$', 1)
      case Some(k) => if k > 1 then Some(Hit(k + 1, RenderOrError(render, x[1..k], false))) else None
      case None => None
    else None
  }

  function DisplayRule(render: Renderer): Rule {
    x => DisplayHit(x, render)
  }

  function InlineRule(render: Renderer): Rule {
    x => InlineHit(x, render)
  }

  /** Display math first, then inline math over the result. */
  function Math(s: string, render: Renderer): string {
    GlobalReplace(GlobalReplace(s, DisplayRule(render)), InlineRule(render))
  }

  // ---------------------------------------------------------------------------
  // Stage 8: line breaks

  /** `replace(/\\\\/g, "<br>")`. */
  const BREAK: Rule := x => if "\\\\" <= x then Some(Hit(2, "<br>")) else None

  function LineBreaks(s: string): string {
    GlobalReplace(s, BREAK)
  }

  // ---------------------------------------------------------------------------
  // Stage 9: paragraphs

  /** `x` starts with a blank-line separator `\n\s*\n` of length `e`. */
  ghost predicate IsSeparator(x: string, e: nat) {
    2 <= e <= |x| && x[0] == '\n' && x[e - 1] == '\n' && IsBlank(x[1..e - 1])
  }

  /**
   * The greedy `\s*` of `/\n\s*\n/`, backing off to the last newline: the
   * scan has passed the white space `x[1..i]`, and `best` is the end of the
   * longest separator seen so far.
   */
  function RunSeparator(x: string, i: nat, best: Option<nat>): (r: Option<nat>)
    requires 1 <= i <= |x|
    requires best.Some? ==> 2 <= best.value <= i && x[best.value - 1] == '\n'
    decreases |x| - i
    ensures r.Some? ==> 2 <= r.value <= |x| && x[r.value - 1] == '\n'
  {
    if i < |x| && IsWs(x[i]) then RunSeparator(x, i + 1, if x[i] == '\n' then Some(i + 1) else best)
    else best
  }

  /** The length of the match of `/\n\s*\n/` at the start of `x`, if it starts with one. */
  function SeparatorLen(x: string): (r: Option<nat>)
    ensures r.Some? ==> 2 <= r.value <= |x| && x[0] == '\n' && x[r.value - 1] == '\n'
  {
    if x == [] || x[0] != '\n' then None else RunSeparator(x, 1, None)
  }

  /** What the scan has established about the separators ending at or before `i`. */
  ghost predicate ScanSoFar(x: string, i: nat, best: Option<nat>)
    requires 1 <= i <= |x|
  {
    IsBlank(x[1..i]) &&
    (best.Some? ==> IsSeparator(x, best.value)) &&
    (forall e: nat :: e <= i && IsSeparator(x, e) ==> best.Some? && e <= best.value)
  }

  lemma RunSeparatorStep(x: string, i: nat, best: Option<nat>)
    requires 1 <= i < |x| && x[0] == '\n' && IsWs(x[i]) && ScanSoFar(x, i, best)
    ensures ScanSoFar(x, i + 1, if x[i] == '\n' then Some(i + 1) else best)
  {
    var next := if x[i] == '\n' then Some(i + 1) else best;
    assert x[1..i + 1] == x[1..i] + [x[i]];
    if x[i] == '\n' {
      assert x[1..i + 1 - 1] == x[1..i];
      assert IsSeparator(x, i + 1);
    }
    forall e: nat | e <= i + 1 && IsSeparator(x, e)
      ensures next.Some? && e <= next.value
    {
      if e == i + 1 {
        assert x[i] == '\n';
      }
    }
  }

  /** No separator reaches past the white-space run the scan stopped at. */
  lemma RunSeparatorEnd(x: string, i: nat, e: nat)
    requires 1 <= i <= |x| && (i == |x| || !IsWs(x[i]))
    requires IsSeparator(x, e)
    ensures e <= i
  {
    forall j | 1 <= j < e
      ensures IsWs(x[j])
    {
      if j < e - 1 {
        assert x[j] == x[1..e - 1][j - 1];
      }
    }
  }

  lemma {:induction false} RunSeparatorMatches(x: string, i: nat, best: Option<nat>)
    requires 1 <= i <= |x| && x[0] == '\n'
    requires best.Some? ==> 2 <= best.value <= i && x[best.value - 1] == '\n'
    requires ScanSoFar(x, i, best)
    decreases |x| - i
    ensures RunSeparator(x, i, best).Some? ==> IsSeparator(x, RunSeparator(x, i, best).value)
    ensures forall e: nat :: IsSeparator(x, e) ==> RunSeparator(x, i, best).Some? && e <= RunSeparator(x, i, best).value
  {
    if i < |x| && IsWs(x[i]) {
      RunSeparatorStep(x, i, best);
      RunSeparatorMatches(x, i + 1, if x[i] == '\n' then Some(i + 1) else best);
    } else {
      forall e: nat | IsSeparator(x, e)
        ensures e <= i
      {
        RunSeparatorEnd(x, i, e);
      }
    }
  }

  /** `SeparatorLen` finds the longest separator at the start of `x`, and none when there is none. */
  lemma SeparatorLenMatches(x: string)
    ensures SeparatorLen(x).Some? ==> IsSeparator(x, SeparatorLen(x).value)
    ensures SeparatorLen(x).Some? ==> forall e: nat :: IsSeparator(x, e) ==> e <= SeparatorLen(x).value
    ensures SeparatorLen(x).None? ==> forall e: nat :: !IsSeparator(x, e)
  {
    if x != [] && x[0] == '\n' {
      assert x[1..1] == [];
      RunSeparatorMatches(x, 1, None);
    }
  }

  /**
   * `s.split(/\n\s*\n/)`: `p` is where the current piece began and `q` the
   * position being tried.
   */
  function SplitFrom(s: string, p: nat, q: nat): (pieces: seq<string>)
    requires p <= q <= |s|
    decreases |s| - q
    ensures |pieces| >= 1
  {
    if q == |s| then [s[p..]]
    else
      match SeparatorLen(s[q..])
      case Some(e) => [s[p..q]] + SplitFrom(s, q + e, q + e)
      case None => SplitFrom(s, p, q + 1)
  }

  function SplitParagraphs(s: string): seq<string> {
    SplitFrom(s, 0, 0)
  }

  /** The block already starts with a tag the wrapper leaves alone. */
  predicate IsStructural(b: string) {
    "<h" <= b || "<ul" <= b || "<ol" <= b || "<div" <= b
  }

  /** A trimmed block, kept as it is when structural and wrapped in `<p>` otherwise. */
  function FormatBlock(piece: string): string {
    var t := Trim(piece);
    if IsStructural(t) then t else "<p>" + t + "</p>"
  }

  /** `filter((p) => p.trim())`. */
  function NonBlank(pieces: seq<string>): seq<string> {
    if pieces == [] then []
    else (if IsBlank(pieces[0]) then [] else [pieces[0]]) + NonBlank(pieces[1..])
  }

  /** `map(...)` of FormatBlock. */
  function FormatBlocks(pieces: seq<string>): seq<string> {
    if pieces == [] then [] else [FormatBlock(pieces[0])] + FormatBlocks(pieces[1..])
  }

  function Paragraphs(s: string): string {
    JoinWith(FormatBlocks(NonBlank(SplitParagraphs(s))), "\n")
  }

  // ---------------------------------------------------------------------------
  // The whole converter

  /** `processLaTeXContent(latex)`, with the date text for `\today` and the math renderer supplied. */
  function ProcessLaTeXContent(latex: string, today: string, render: Renderer): string {
    match DocumentSpan(latex)
    case None => NO_DOCUMENT
    case Some((i, j)) =>
      var content := Trim(latex[i + |BEGIN_DOCUMENT|..j]);
      var block := TitleBlock(Metadata(latex, "\\title"), Metadata(latex, "\\author"), Metadata(latex, "\\date"), today);
      Paragraphs(LineBreaks(Math(Lists(TextFormatting(Headings(ExpandMaketitle(content, block)))), render)))
  }
}
