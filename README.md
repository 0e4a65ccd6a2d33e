# texlens-latex-editor: a verified model of the editor's core

This project models, in Dafny, the logic of the texlens LaTeX editor that does not
depend on the browser:

- **The converter `processLaTeXContent`.** It turns a LaTeX-like source into the HTML
  that the live preview shows and the PDF export renders. The two components hold
  identical copies (`components/latex-preview.tsx:17-134` and
  `components/pdf-download.tsx:21-138`). One Dafny function,
  `LatexPreview.ProcessLaTeXContent`, stands for both. It is a chain of stages: the
  document body, metadata, `\maketitle`, headings, text formatting, lists, math,
  line breaks and paragraphs.
  - Every JavaScript global `String.replace` is one scanner, `Rewrite.GlobalReplace`.
    At each position it asks a hand-written matcher whether the pattern matches
    there. A match is replaced and the scan resumes after it; otherwise one
    character is copied.
  - `\maketitle` is replaced using a replacement *string*. So JavaScript's `$$`,
    `$&`, `` $` `` and `$'` patterns are modelled (`Rewrite.ReplaceAllTemplate`).
  - The math renderer (KaTeX) is a parameter `render(math, display)` that returns
    `None` when it throws.
  - The current date is a parameter `today`.
- **The export button** (`components/pdf-download.tsx`): the blank-content check, the
  in-flight flag, the job handed to the PDF renderer and the clean-up.
- **The document store `useFileManager`** (`hooks/use-file-manager.ts`).
  - It is a class holding the file list, the current id and the editor text.
  - Its invariant: ids are unique and non-empty, and the current file, when present,
    holds the editor text.
  - New ids and timestamps are supplied by the caller.
- **The file-manager sidebar** (`components/file-manager.tsx`): `.tex` name
  normalisation, the `.tex` stripping that pre-fills the rename dialog, the
  case-insensitive search, and the dialog state.
- **The sidebar width hook** (`hooks/use-sidebar-resize.ts`): the drag clamp, the
  stored-width check, reset, and what is written to storage.

A heading followed directly by bold text, `\section{Intro}\textbf{Hi}` as the whole
body, is one block that starts with `<h2`. The paragraph stage therefore keeps it
unwrapped, and the result is `<h2>Intro</h2><strong>Hi</strong>` with no `<p>`
(`PreviewPipeline.HeadingThenBold`).

Three more behaviours of the code are reproduced and stated as lemmas:

- A command argument ends at the first `}` (`PreviewCommands.NestedBracesTruncate`).
- A list written over several lines gets a stray `</li>` before its first item
  (`PreviewLists.ItemizeOfLines`).
- A `$$` in the title block reaches the page as a single `$`
  (`PreviewPipeline.TitleDollarsCollapse`).

## Model

| member | source | states |
|---|---|---|
| Text.Trim | components/latex-preview.tsx:27 | `trim()`: the input from its first non-white-space character with trailing white space removed; empty exactly when the input is blank; no white space left at either end |
| Text.TrimIdempotent | components/latex-preview.tsx:115 | trimming a trimmed block changes nothing |
| Text.TrimUntouched | components/latex-preview.tsx:115 | text with no white space at either end is its own trim |
| Text.TrimKeepsAbsent | components/latex-preview.tsx:27 | trimming introduces no character that was not there |
| Text.IndexOfChar | components/latex-preview.tsx:30 | the first position at or after `from` holding the character, or none when no such position exists |
| Text.IndexOf | components/latex-preview.tsx:35 | `indexOf`: the first occurrence at or after `from`; none exactly when the pattern occurs nowhere from there |
| Text.ContainsIff | components/latex-preview.tsx:35 | `includes` holds exactly when the pattern occurs at some position |
| Text.Lower | components/file-manager.tsx:76 | `toLowerCase`: same length, each ASCII capital lowered, every other character kept |
| Text.LowerIdempotent | components/file-manager.tsx:76 | lower-casing twice is lower-casing once |
| Rewrite.GlobalReplace | components/latex-preview.tsx:54 | every `replace(/..../g, ..)`: matches found left to right without overlap (`Rewrite.CopiesQuietPrefix`, `Rewrite.ReplacesLeadingMatch`, `Rewrite.CopiesQuietText`) |
| Rewrite.CopiesQuietPrefix | components/latex-preview.tsx:54 | a global replace copies a prefix where no match starts and goes on after it |
| Rewrite.ReplacesLeadingMatch | components/latex-preview.tsx:54 | a match at the start is replaced and scanning resumes after it, so matches never overlap |
| Rewrite.CopiesQuietText | components/latex-preview.tsx:54 | text where no match starts is returned unchanged |
| Rewrite.CopiesTextWithoutLead | components/latex-preview.tsx:54-61 | when every match starts with a character absent from a prefix, that prefix is copied verbatim |
| Rewrite.SplitOn | components/latex-preview.tsx:50 | reference definition for the `\maketitle` replace: `split` at a literal, at least one part; the replace is proved equal to splitting and joining with the block (`Rewrite.LiteralReplaceIsSplitJoin`, `PreviewPipeline.MaketitleReplaced`) |
| Rewrite.SplitJoinRoundTrip | components/latex-preview.tsx:50 | splitting at a literal and joining with it gives back the text |
| Rewrite.SplitPartsFree | components/latex-preview.tsx:50 | no part of a split contains the separator |
| Rewrite.LiteralFires | components/latex-preview.tsx:50 | a literal pattern matches exactly where the text starts with it, and is replaced by the replacement text |
| Rewrite.LiteralReplaceFirst | components/latex-preview.tsx:50 | the text before the first occurrence is copied, the occurrence replaced, the rest scanned on |
| Rewrite.LiteralReplaceAbsent | components/latex-preview.tsx:50 | a literal that does not occur leaves the text unchanged |
| Rewrite.LiteralReplaceIsSplitJoin | components/latex-preview.tsx:50 | replacing every occurrence of a literal equals splitting at it and joining with the replacement |
| Rewrite.Substitute | components/latex-preview.tsx:50 | JavaScript's replacement-string patterns `$$`, `$&`, `` $` `` and `$'` (`Rewrite.SubstituteWithoutDollar`, `PreviewPipeline.TitleDollarsCollapse`) |
| Rewrite.ReplaceAllTemplate | components/latex-preview.tsx:50 | a global literal replace with a replacement string (`Rewrite.TemplateWithoutDollarIsLiteral`) |
| Rewrite.SubstituteWithoutDollar | components/latex-preview.tsx:50 | a replacement string without `$` is inserted as written |
| Rewrite.TemplateWithoutDollarIsLiteral | components/latex-preview.tsx:50 | with no `$` in the replacement string, the template replace equals the literal replace |
| LatexPreview.ProcessLaTeXContent | components/latex-preview.tsx:17-128 | the converter, also `components/pdf-download.tsx:21-132`: the hint without a document (`PreviewPipeline.NoDocumentHint`), otherwise the stages on the trimmed body (`PreviewPipeline.ConvertDocument`, `PreviewPipeline.MetadataOnlyThroughMaketitle`, `PreviewPipeline.PlainBody`, `PreviewPipeline.HeadingThenBold`) |
| LatexPreview.DocumentSpan | components/latex-preview.tsx:20-25 | none exactly when no `\begin{document}` is followed by an `\end{document}`; otherwise the first `\begin{document}` and the first `\end{document}` after it |
| LatexPreview.CommandShapeIsPrefix | components/latex-preview.tsx:30-32 | text matches `name{a}` with a non-empty, brace-free `a` exactly when it starts with `name{a}` |
| LatexPreview.CommandArg | components/latex-preview.tsx:54-61 | the argument found is the unique `a` such that the text starts with `name{a}`, `a` non-empty and free of `}`; none when there is no such `a` |
| LatexPreview.FirstCommandAt | components/latex-preview.tsx:30-32 | the first position at or after `from` where the command matches, none when it matches nowhere |
| LatexPreview.Metadata | components/latex-preview.tsx:30-32 | the argument of the first `\title`, `\author` or `\date` match anywhere in the source (`PreviewCommands.MetadataFirstMatch`, `PreviewCommands.MetadataAbsent`) |
| LatexPreview.TitleBlock | components/latex-preview.tsx:36-49 | title, author and date lines, each only when found, `\today` shown as the supplied date (`PreviewPipeline.TodayOnlyForTodayCommand`) |
| LatexPreview.ExpandMaketitle | components/latex-preview.tsx:35-51 | every `\maketitle` replaced by the title block as a replacement string (`PreviewPipeline.MaketitleReplaced`, `PreviewPipeline.MaketitleWithoutMetadata`, `PreviewPipeline.TitleDollarsCollapse`) |
| LatexPreview.CommandRule | components/latex-preview.tsx:54-61 | the matcher of `/\\name\{([^}]+)\}/` with its tag pair, whose output `LatexPreview.CommandOutput` is the argument between the two tags (`PreviewCommands.CommandReplaced`, `PreviewCommands.NestedBracesTruncate`, `PreviewCommands.EmptyArgumentKept`) |
| LatexPreview.Headings | components/latex-preview.tsx:54-56 | the three heading passes in order (`PreviewCommands.SectionLevel`, `PreviewCommands.SubsectionLevel`, `PreviewCommands.SubsubsectionLevel`) |
| LatexPreview.TextFormatting | components/latex-preview.tsx:59-61 | the bold, italic and underline passes in order (`PreviewPipeline.BoldAfterText`, `PreviewCommands.PlainTextUnchanged`) |
| LatexPreview.ListItems | components/latex-preview.tsx:66-70 | the `\item` pass (constant `ITEM`) then the closing pass (constant `CLOSE_ITEM`) on a list body (`PreviewLists.ItemPassCuts`, `PreviewLists.ClosePassCuts`, `PreviewLists.ListItemsCuts`) |
| LatexPreview.ListBlock | components/latex-preview.tsx:71 | `<tag>`, the rewritten items, `</li></tag>` (`PreviewLists.ListBlockReplaced`) |
| LatexPreview.EnvironmentBody | components/latex-preview.tsx:65 | the lazy `\begin{env}..\end{env}` match at the start of the text (`PreviewLists.EnvironmentFound`) |
| LatexPreview.ListRule | components/latex-preview.tsx:64-82 | the matcher of one list environment with its tag (`PreviewLists.ListRuleLeadsWithBackslash`, `PreviewLists.ListBlockReplaced`) |
| LatexPreview.Lists | components/latex-preview.tsx:64-82 | the `itemize` pass then the `enumerate` pass, each environment becoming one block (`PreviewLists.ListBlockReplaced`, `PreviewLists.ItemizeOfLines`, `PreviewLists.ItemizeInline`) |
| LatexPreview.RenderOrError | components/latex-preview.tsx:86-93 | the renderer's HTML, or the error span quoting the formula when it throws (`PreviewMath.InlineMathRendered`, `PreviewMath.RenderedWithoutDollar`) |
| LatexPreview.DisplayRule | components/latex-preview.tsx:85 | the matcher of `$$..$$` (`PreviewMath.DisplayReplaced`, `PreviewMath.DisplaySkipsInline`) |
| LatexPreview.InlineRule | components/latex-preview.tsx:96 | the matcher of `$..$` (`PreviewMath.InlineReplaced`) |
| LatexPreview.Math | components/latex-preview.tsx:85-105 | the display pass then the inline pass (`PreviewMath.DisplayMathRendered`, `PreviewMath.InlineMathRendered`, `PreviewMath.TextWithoutDollarUnchanged`) |
| LatexPreview.LineBreaks | components/latex-preview.tsx:108 | every `\\` replaced by `<br>` through the constant `BREAK` (`PreviewBlocks.LineBreaksLeaveNoPair`, `PreviewBlocks.LineBreaksIdempotent`) |
| LatexPreview.IsSeparator | components/latex-preview.tsx:111 | a whole match of `\n\s*\n` at the start of the text (`LatexPreview.SeparatorLenMatches`) |
| LatexPreview.SplitParagraphs | components/latex-preview.tsx:111 | `split(/\n\s*\n/)` (`PreviewBlocks.SplitParagraphsSound`) |
| LatexPreview.IsStructural | components/latex-preview.tsx:117-120 | the trimmed block starts with `<h`, `<ul`, `<ol` or `<div` (`PreviewBlocks.SingleBlock`) |
| LatexPreview.FormatBlock | components/latex-preview.tsx:114-123 | a structural block trimmed, any other wrapped in `<p>` (`PreviewBlocks.SingleBlock`, `PreviewBlocks.FormatBlockShape`) |
| LatexPreview.NonBlank | components/latex-preview.tsx:111 | the `filter((p) => p.trim())`: it keeps exactly the non-blank pieces (`PreviewBlocks.NonBlankMembers`) in their order (`PreviewBlocks.NonBlankAppend`) |
| LatexPreview.Paragraphs | components/latex-preview.tsx:111-126 | split, filter, format and join with line breaks (`PreviewBlocks.BlankRendersEmpty`, `PreviewBlocks.SingleBlock`) |
| LatexPreview.RunSeparator | components/latex-preview.tsx:111 | scanning the white space after a line break, the match found ends just after a line break and within the text |
| LatexPreview.SeparatorLen | components/latex-preview.tsx:111 | a match of `\n\s*\n` at the start begins and ends with a line break and is at least two characters long |
| LatexPreview.SeparatorLenMatches | components/latex-preview.tsx:111 | the match found is a `\n\s*\n` at the start and the longest one; none exactly when the text starts with no such match |
| LatexPreview.SplitFrom | components/latex-preview.tsx:111 | the split yields at least one piece |
| PreviewCommands.CommandLeadsWithBackslash | components/latex-preview.tsx:54-61 | a command pass only matches where the text starts with a backslash |
| PreviewCommands.CommandReplaced | components/latex-preview.tsx:54-61 | `name{a}` becomes `open + a + close` and the scan goes on after the brace |
| PreviewCommands.NestedBracesTruncate | components/latex-preview.tsx:54-61 | the argument stops at the first `}`: `name{a}b}` leaves `b}` behind |
| PreviewCommands.EmptyArgumentKept | components/latex-preview.tsx:54-61 | `name{}` is copied unchanged |
| PreviewCommands.PlainTextUnchanged | components/latex-preview.tsx:54-61 | text without a backslash passes headings and text formatting unchanged |
| PreviewCommands.OtherCommandSilent | components/latex-preview.tsx:54-61 | a pass does not match a command whose name differs within its own name's length |
| PreviewCommands.OtherCommandCopied | components/latex-preview.tsx:54-61 | a pass that does not match a command copies it |
| PreviewCommands.OwnCommand | components/latex-preview.tsx:54-61 | a command on its own becomes its tag pair |
| PreviewCommands.HeadingLevels | components/latex-preview.tsx:54-56 | `\section`, `\subsection`, `\subsubsection` become `h2`, `h3`, `h4` |
| PreviewCommands.SectionLevel | components/latex-preview.tsx:54-56 | the heading stage turns `\section{a}` into `<h2>a</h2>` |
| PreviewCommands.SubsectionLevel | components/latex-preview.tsx:54-56 | the heading stage turns `\subsection{a}` into `<h3>a</h3>` |
| PreviewCommands.SubsubsectionLevel | components/latex-preview.tsx:54-56 | the heading stage turns `\subsubsection{a}` into `<h4>a</h4>` |
| PreviewCommands.SectionSkipsDeeper | components/latex-preview.tsx:54 | the `\section` pass leaves `\subsection` and `\subsubsection` alone |
| PreviewCommands.SubsectionSkipsDeeper | components/latex-preview.tsx:55 | the `\subsection` pass leaves `\subsubsection` alone |
| PreviewCommands.HeadingOutputKept | components/latex-preview.tsx:55-56 | later heading passes leave backslash-free output alone |
| PreviewCommands.MetadataFirstMatch | components/latex-preview.tsx:30-32 | the metadata is the argument at the first place in the whole input where the command matches |
| PreviewCommands.MetadataAbsent | components/latex-preview.tsx:30-32 | the metadata is absent exactly when the command matches nowhere |
| PreviewLists.ItemLeadsWithBackslash | components/latex-preview.tsx:68 | the item pass only matches at a backslash |
| PreviewLists.CloseLeadsWithNewline | components/latex-preview.tsx:69 | the closing pass only matches at a line break |
| PreviewLists.ItemPass | components/latex-preview.tsx:68 | for a body of one-line, command-free items each written `\item ` and its text: every `\item ` becomes `<li>` and the item texts are kept |
| PreviewLists.ClosePass | components/latex-preview.tsx:69 | for one-line, command-free items each on its own line: every line break before an `<li>` becomes `</li>` plus the line break, including the one before the first item |
| PreviewLists.ListItemsOfLines | components/latex-preview.tsx:67-69 | one-line, command-free items on their own lines come out with a `</li>` before every `<li>` |
| PreviewLists.ListItemsInline | components/latex-preview.tsx:67-69 | command-free items written on one line, each after `\item `, get `<li>` and no closing tags |
| PreviewLists.ClosingTagFound | components/latex-preview.tsx:65 | the lazy body ends at the first closing tag after the opening one |
| PreviewLists.EnvironmentFound | components/latex-preview.tsx:65 | `\begin{env}items\end{env}` is matched whole, with `items` as the body, when `items` holds no earlier `\end{env}` |
| PreviewLists.ListBlockReplaced | components/latex-preview.tsx:64-72 | an environment becomes `<tag>` + processed items + `</li></tag>`, and the scan goes on after it |
| PreviewLists.ItemLinesCloseAtEnd | components/latex-preview.tsx:65 | a body of plain items holds no `\end{..}`, so the environment closes at its own end tag |
| PreviewLists.ListRuleLeadsWithBackslash | components/latex-preview.tsx:64-82 | the list passes only match at a backslash |
| PreviewLists.ItemizePass | components/latex-preview.tsx:64-72 | the `itemize` pass wraps the processed items in `<ul>` … `</li></ul>` |
| PreviewLists.EnumeratePassCopies | components/latex-preview.tsx:74-82 | the `enumerate` pass leaves backslash-free text unchanged |
| PreviewLists.ItemizeOfLines | components/latex-preview.tsx:64-72 | an `itemize` of one-line, command-free items on their own lines gives `<ul>`, then `</li>` before each item, then `</li></ul>` |
| PreviewLists.ItemizeInline | components/latex-preview.tsx:64-72 | an `itemize` of command-free items written on one line gives `<ul>`, the `<li>` items, then `</li></ul>` |
| PreviewLists.ItemizeTwoInline | components/latex-preview.tsx:64-72 | two one-line items `a`, `b` give `<ul><li>a<li>b</li></ul>` |
| PreviewLists.ClosedPlain | components/latex-preview.tsx:67-69 | the rewritten body of a list of plain items holds no backslash |
| PreviewLists.ItemCuts | components/latex-preview.tsx:68 | the reference cut of any text at its `\item`-and-white-space marks, scanning left to right; one more stretch than marks |
| PreviewLists.ItemCutsSound | components/latex-preview.tsx:68 | for every text: the stretches and marks put back together give the text, every mark is `\item` and one white-space character, and no stretch holds such a mark |
| PreviewLists.ItemPassCuts | components/latex-preview.tsx:68 | for every text, the item pass is the same stretches with one `<li>` in place of each mark, so the number of `<li>` added is the number of marks |
| PreviewLists.CloseCuts | components/latex-preview.tsx:69 | the reference cut of any text at each line break whose white-space run is followed by `<li>`; one more stretch than gaps |
| PreviewLists.CloseCutsRebuild | components/latex-preview.tsx:69 | for every text, the stretches and gaps put back together give the text |
| PreviewLists.CloseCutsGaps | components/latex-preview.tsx:69 | for every text, every gap is a line break and white space only, and `<li>` follows it |
| PreviewLists.CloseCutsClean | components/latex-preview.tsx:69 | for every text, no stretch holds a line break whose white-space run reaches `<li>` |
| PreviewLists.CloseCutsTrailing | components/latex-preview.tsx:69 | for every text, no stretch before a gap ends in a line break and white space, so each gap takes the whole `\n\s*` before its `<li>` |
| PreviewLists.ClosePassCuts | components/latex-preview.tsx:69 | for every text, the closing pass is the same stretches with `</li>` and a line break in place of each gap |
| PreviewLists.ListItemsCuts | components/latex-preview.tsx:66-70 | for every list body, the rewritten items are the closing cuts of the item-cut text, with `<li>` at each item mark and `</li>` plus a line break at each gap |
| PreviewMath.DisplayLeadsWithDollar | components/latex-preview.tsx:85 | the display pass only matches at `$` |
| PreviewMath.InlineLeadsWithDollar | components/latex-preview.tsx:96 | the inline pass only matches at `$` |
| PreviewMath.DisplayReplaced | components/latex-preview.tsx:85-94 | `$$m$$` becomes the display rendering of `m` and the scan goes on |
| PreviewMath.InlineReplaced | components/latex-preview.tsx:96-105 | `$m$` becomes the inline rendering of `m` and the scan goes on |
| PreviewMath.TextWithoutDollarUnchanged | components/latex-preview.tsx:85-105 | text without `$` passes the math stage unchanged |
| PreviewMath.RenderedWithoutDollar | components/latex-preview.tsx:91-93 | the error span for a formula without `$` has no `$` either |
| PreviewMath.DisplayMathRendered | components/latex-preview.tsx:85-105 | a display formula is rendered once, in display mode, and never as inline |
| PreviewMath.DisplaySkipsInline | components/latex-preview.tsx:85 | the display pass leaves `$m$` alone |
| PreviewMath.InlineMathRendered | components/latex-preview.tsx:96-105 | an inline formula is rendered in inline mode; when rendering throws, the result is the error span quoting the formula |
| PreviewBlocks.BreakLeadsWithBackslash | components/latex-preview.tsx:108 | the line-break pass only matches at a backslash |
| PreviewBlocks.BreakReplaced | components/latex-preview.tsx:108 | `\\` becomes `<br>` and the scan goes on |
| PreviewBlocks.LineBreaksLeaveNoPair | components/latex-preview.tsx:108 | no two backslashes in a row remain |
| PreviewBlocks.LineBreaksIdempotent | components/latex-preview.tsx:108 | converting line breaks twice equals converting once |
| PreviewBlocks.SeparatorsCount | components/latex-preview.tsx:111 | a split has one more piece than it cuts out separators |
| PreviewBlocks.SeparatorsAreBlankLines | components/latex-preview.tsx:111 | every separator cut out is a whole match of `\n\s*\n` |
| PreviewBlocks.SplitRebuilds | components/latex-preview.tsx:111 | the pieces, with the separators put back between them, are the scanned text |
| PreviewBlocks.SeparatorLocal | components/latex-preview.tsx:111 | whether a separator starts somewhere depends only on the characters it covers |
| PreviewBlocks.PieceHasNoBlankLine | components/latex-preview.tsx:111 | a stretch with no separator starting in it holds no blank line |
| PreviewBlocks.PiecesHaveNoBlankLine | components/latex-preview.tsx:111 | no piece of a split holds a blank line |
| PreviewBlocks.SplitParagraphsSound | components/latex-preview.tsx:111 | the split has one more piece than separators, rebuilds the text, cuts only at blank lines, and leaves none inside a piece |
| PreviewBlocks.NoSeparatorOnePiece | components/latex-preview.tsx:111 | text without a blank line is a single piece |
| PreviewBlocks.PiecesOfBlankAreBlank | components/latex-preview.tsx:111 | the pieces of blank text are blank |
| PreviewBlocks.NonBlankMembers | components/latex-preview.tsx:111 | for any list, a piece is in the filtered list exactly when it is in the list and not blank |
| PreviewBlocks.NonBlankAppend | components/latex-preview.tsx:111 | the filter of two lists joined is the two filters joined, so kept pieces keep their order |
| PreviewBlocks.NonBlankOfBlanks | components/latex-preview.tsx:111 | a list of blank pieces filters to nothing |
| PreviewBlocks.BlankRendersEmpty | components/latex-preview.tsx:111-126 | a blank body renders as the empty string |
| PreviewBlocks.SingleBlock | components/latex-preview.tsx:111-126 | a single block is kept trimmed when it starts with `<h`, `<ul`, `<ol` or `<div`, and otherwise becomes `<p>` + trimmed block + `</p>` |
| PreviewBlocks.FormatBlockShape | components/latex-preview.tsx:114-124 | a formatted block is non-empty and starts with `<`; a wrapped one holds the trimmed block after `<p>` |
| PreviewPipeline.NoDocumentHint | components/latex-preview.tsx:20-25 | without a `\begin{document}`…`\end{document}` pair the result is exactly the hint paragraph |
| PreviewPipeline.NotClosedEarly | components/latex-preview.tsx:20-22 | text whose commands never start with the closing tag's letter is closed only by the tag appended to it |
| PreviewPipeline.NotContained | components/latex-preview.tsx:35 | such text does not contain the command |
| PreviewPipeline.DocumentFound | components/latex-preview.tsx:20-27 | for a source that is one document environment, the span is found and the body between the tags is recovered |
| PreviewPipeline.ConvertDocument | components/latex-preview.tsx:17-128 | such a source converts through the stages applied to its trimmed body |
| PreviewPipeline.NoMaketitleWithoutBackslash | components/latex-preview.tsx:35 | text without a backslash has no `\maketitle` to expand |
| PreviewPipeline.RewritesKeepPlainText | components/latex-preview.tsx:54-108 | text with neither a backslash nor a `$` passes every rewrite stage unchanged |
| PreviewPipeline.PlainBody | components/latex-preview.tsx:17-128 | a body of plain text goes straight to the paragraph stage, trimmed, whatever the date and the renderer |
| PreviewPipeline.BlankDocument | components/latex-preview.tsx:17-128 | an empty or all-white-space document renders as the empty string |
| PreviewPipeline.SectionThenBold | components/latex-preview.tsx:54 | the `\section` pass turns the heading into `<h2>` and copies the bold command after it |
| PreviewPipeline.LaterHeadingPassesKeep | components/latex-preview.tsx:55-56 | the `\subsection` and `\subsubsection` passes leave backslash-free text and a bold command unchanged |
| PreviewPipeline.HeadingThenBoldHeadings | components/latex-preview.tsx:54-56 | the heading stage turns the section into `<h2>` and leaves the bold command |
| PreviewPipeline.BoldAfterText | components/latex-preview.tsx:59-61 | the bold command after backslash-free text becomes `<strong>` |
| PreviewPipeline.FormattingOutputKept | components/latex-preview.tsx:60-61 | the italic and underline passes leave backslash-free text alone |
| PreviewPipeline.HeadingThenBoldStages | components/latex-preview.tsx:54-108 | the rewrite stages turn the section and bold commands into their elements |
| PreviewPipeline.HeadingLineKept | components/latex-preview.tsx:111-126 | a one-line block starting with `<h` and ending with `>` comes out as it is |
| PreviewPipeline.HeadingThenBold | components/latex-preview.tsx:17-128 | `\section{a}\textbf{b}` as the body gives `<h2>a</h2><strong>b</strong>`, with no `<p>` around the bold text |
| PreviewPipeline.RewritesKeepPlainTextAfterFormatting | components/latex-preview.tsx:64-108 | the lists, math and line-break stages leave text without a backslash or `$` unchanged |
| PreviewPipeline.MaketitleReplaced | components/latex-preview.tsx:35-51 | with no `$` in the title block, every `\maketitle` is replaced by the block: split at it, joined with the block |
| PreviewPipeline.MaketitleWithoutMetadata | components/latex-preview.tsx:35-51 | without title, author or date, `\maketitle` is simply removed |
| PreviewPipeline.TodayOnlyForTodayCommand | components/latex-preview.tsx:43-48 | the date line depends on the supplied date exactly when the date argument is `\today` |
| PreviewPipeline.TitleDollarsCollapse | components/latex-preview.tsx:50 | a `$$m$$` in the title block is expanded as a single `$m$` |
| PreviewPipeline.MetadataOnlyThroughMaketitle | components/latex-preview.tsx:17-128 | for any source with a document body that holds no `\maketitle`, the result is the stages applied to the trimmed body alone: neither the `\title`, `\author` and `\date` found anywhere in the source, the preamble included, nor the supplied date play a part |
| PdfDownload.Wrapped | components/pdf-download.tsx:294-296 | the converted body is placed inside the `latex-preview` container |
| PdfDownload.WrappedRoundTrip | components/pdf-download.tsx:294-296 | the converted body can be read back out of the container |
| PdfDownload.PdfFileName | components/pdf-download.tsx:307 | the output name is the file name followed by `.pdf` |
| PdfDownload.ExportFor | components/pdf-download.tsx:21-138 | the exported HTML holds the same conversion the preview shows, and the name ends with `.pdf` |
| PdfDownload.Exporter.constructor | components/pdf-download.tsx:16-19 | no export is in flight at first |
| PdfDownload.Exporter.HandleDownload | components/pdf-download.tsx:140-153 | blank content, or a request while an export is in flight, changes nothing and yields no job (the blank check comes first); otherwise the flag is set and the job is returned |
| PdfDownload.Exporter.AttachTemp | components/pdf-download.tsx:300-302 | the temporary element is attached |
| PdfDownload.Exporter.Finish | components/pdf-download.tsx:328-343 | on success and on failure alike, the element is detached and the flag cleared |
| PdfDownload.SecondRequestIgnored | components/pdf-download.tsx:146-148 | a second request while the first is in flight yields nothing; the first is named `document.pdf` |
| UseFileManager.Ids | hooks/use-file-manager.ts:5-12 | the ids of the records, position by position |
| UseFileManager.IndexOfId | hooks/use-file-manager.ts:85 | the first position holding the id, none when no record has it |
| UseFileManager.Find | hooks/use-file-manager.ts:85 | `find`: a record of the list with that id, present exactly when some record has it |
| UseFileManager.FindUnique | hooks/use-file-manager.ts:85 | with unique ids, looking a record up by its id gives that record |
| UseFileManager.Without | hooks/use-file-manager.ts:108-109 | the filter keeps exactly the records whose id differs |
| UseFileManager.WithoutAppend | hooks/use-file-manager.ts:108-109 | the filter keeps the order of the records it keeps |
| UseFileManager.WithoutAbsent | hooks/use-file-manager.ts:108-109 | deleting an id that is not present changes nothing |
| UseFileManager.WithoutPresent | hooks/use-file-manager.ts:108-109 | deleting a present id removes exactly one record |
| UseFileManager.WithoutKeepsIds | hooks/use-file-manager.ts:108-109 | the filter keeps ids unique and non-empty |
| UseFileManager.Renamed | hooks/use-file-manager.ts:129-135 | renaming changes only the name (and update time) of the matching records; length, order, ids and contents are kept |
| UseFileManager.WithContent | hooks/use-file-manager.ts:140-149 | writing content changes only the content (and update time) of the matching records |
| UseFileManager.Consistent | hooks/use-file-manager.ts:15-85 | the store's invariant: unique non-empty ids, and the current record, when the list has it, holds the editor text; it holds at the start (`UseFileManager.SingleFileConsistent`) and every operation keeps it (the `Preserves` lemmas) |
| UseFileManager.SingleFileConsistent | hooks/use-file-manager.ts:15-79 | a list of one file with a non-empty id, that file current with its content in the editor, satisfies the invariant |
| UseFileManager.RenamePreserves | hooks/use-file-manager.ts:129-135 | renaming keeps the store's invariant |
| UseFileManager.UpdatePreserves | hooks/use-file-manager.ts:156-172 | updating the editor text keeps the invariant with the new text |
| UseFileManager.SelectPreserves | hooks/use-file-manager.ts:137-154 | selecting a record of the list, after the write-back, keeps the invariant |
| UseFileManager.CreatePreserves | hooks/use-file-manager.ts:91-104 | appending a file with a fresh id and making it current keeps the invariant |
| UseFileManager.AfterDelete | hooks/use-file-manager.ts:106-127 | after a delete, the selection stays unless the current file went; then it moves to the first remaining file, or to `""` and `""` |
| UseFileManager.DeletePreserves | hooks/use-file-manager.ts:106-127 | deleting keeps the invariant, whichever file goes |
| UseFileManager.FileStore.constructor | hooks/use-file-manager.ts:15-79 | one `example.tex` file with id `"1"`, current, its content in the editor |
| UseFileManager.FileStore.CurrentFile | hooks/use-file-manager.ts:85 | the record with the current id, present exactly when the list has it; its content is the editor text |
| UseFileManager.FileStore.CreateFile | hooks/use-file-manager.ts:91-104 | appends one `tex` record and makes it current with its content; earlier records unchanged |
| UseFileManager.FileStore.DeleteFile | hooks/use-file-manager.ts:106-127 | removes the records with the id and moves the selection as `AfterDelete` says |
| UseFileManager.FileStore.RenameFile | hooks/use-file-manager.ts:129-135 | renames the matching record; selection and editor text unchanged |
| UseFileManager.FileStore.SelectFile | hooks/use-file-manager.ts:137-154 | a different file: the editor text is first written back to the file being left; reselecting the current file leaves the list alone; then the chosen file's id and content are loaded |
| UseFileManager.FileStore.UpdateCurrentContent | hooks/use-file-manager.ts:156-172 | sets the editor text and, when a file is current, that file's content; nothing else changes |
| FileManagerPanel.NormalizeName | components/file-manager.tsx:81-83 | the result ends with `.tex`; it is the name itself exactly when the name already ends with `.tex`, otherwise the name with `.tex` appended |
| FileManagerPanel.NormalizeIdempotent | components/file-manager.tsx:102-104 | normalising twice equals normalising once |
| FileManagerPanel.StripTex | components/file-manager.tsx:114 | only the first `.tex` is removed: putting it back at that position gives the name |
| FileManagerPanel.RenameRoundTrip | components/file-manager.tsx:100-116 | when `.tex` occurs only as the suffix and the stem is not blank, starting a rename and confirming it unchanged gives back the name |
| FileManagerPanel.StripTexInner | components/file-manager.tsx:114 | in `stem.tex` + rest + `.tex`, the inner `.tex` goes and the suffix stays |
| FileManagerPanel.FilterFiles | components/file-manager.tsx:75-77 | the listed files are exactly those whose lower-cased name contains the lower-cased query |
| FileManagerPanel.FilterAppend | components/file-manager.tsx:75-77 | the search keeps the list order |
| FileManagerPanel.EmptyQueryListsAll | components/file-manager.tsx:75-77 | an empty query lists every file |
| FileManagerPanel.QueryCaseIgnored | components/file-manager.tsx:76 | lower-casing the query first changes nothing |
| FileManagerPanel.Panel.constructor | components/file-manager.tsx:68-73 | dialogs closed, fields empty, no rename pending |
| FileManagerPanel.Panel.Listed | components/file-manager.tsx:75-77 | the files listed for the panel's query, all of them when it is empty |
| FileManagerPanel.Panel.HandleCreateFile | components/file-manager.tsx:79-91 | a blank name does nothing; otherwise a file with the normalised name and the template content is requested, and the dialog is cleared and closed |
| FileManagerPanel.Panel.HandleRename | components/file-manager.tsx:100-110 | acts only with a pending, non-empty id and a non-blank value: requests the normalised name, then clears the id and value and closes the dialog |
| FileManagerPanel.Panel.StartRename | components/file-manager.tsx:112-116 | opens the dialog for the file, pre-filled with its name without the first `.tex` |
| SidebarResize.Clamp | hooks/use-sidebar-resize.ts:53-56 | the result lies in `[minWidth, maxWidth]` when that range is not empty; an in-range width is kept; widths outside go to the nearer bound |
| SidebarResize.ClampIdempotent | hooks/use-sidebar-resize.ts:53-56 | clamping twice equals clamping once |
| SidebarResize.ClampMonotone | hooks/use-sidebar-resize.ts:51-57 | dragging further right never gives a narrower sidebar |
| SidebarResize.Restored | hooks/use-sidebar-resize.ts:20-30 | a stored width is adopted exactly when it parsed and lies in the range, inclusive |
| SidebarResize.DraggedWidthRestored | hooks/use-sidebar-resize.ts:20-30 | any width a drag can produce would be adopted when read back from storage |
| SidebarResize.OutOfRangeKeepsDefault | hooks/use-sidebar-resize.ts:11-29 | with the default options, a stored width outside 200..400 leaves 256 |
| SidebarResize.Resizer.constructor | hooks/use-sidebar-resize.ts:10-30 | the default width, replaced by an acceptable stored width; not resizing |
| SidebarResize.Resizer.MouseDown | hooks/use-sidebar-resize.ts:43-49 | resizing starts; the pointer position and the current width are captured |
| SidebarResize.Resizer.MouseMove | hooks/use-sidebar-resize.ts:51-58 | the width becomes the clamped start width plus the pointer movement |
| SidebarResize.Resizer.MouseUp | hooks/use-sidebar-resize.ts:60-65 | resizing stops and the width captured at mouse-down is written to storage; the width on screen and the captured position and width are kept |
| SidebarResize.Resizer.MouseUpSavingWidth | hooks/use-sidebar-resize.ts:60-65 | resizing stops and the width on screen is written to storage; it and the captured position and width are kept |
| SidebarResize.Resizer.ResetWidth | hooks/use-sidebar-resize.ts:74-77 | the width becomes the default, which is also written to storage; whether a drag is running, and the position and width it captured, are kept |
| SidebarResize.ResetDuringDrag | hooks/use-sidebar-resize.ts:43-58 | a reset in the middle of a drag shows the default, and the next move is still the clamp of the width captured at mouse-down plus the movement |
| SidebarResize.DragAndRelease | hooks/use-sidebar-resize.ts:43-65 | after a drag by `delta` the clamped width is shown but 256 is stored, so the next mount shows 256 |
| SidebarResize.DragAndReleaseSavingWidth | hooks/use-sidebar-resize.ts:43-65 | when the width on screen is saved on release, the next mount shows the dragged width |

## Findings

| source | as written | input that shows it | evidently intended | confidence | as-written member | corrected member |
|---|---|---|---|---|---|---|
| hooks/use-sidebar-resize.ts:60-63 | on mouse-up, `saveWidth(width)` uses the `width` captured when the mouse went down | a fresh sidebar (256) dragged 50 px right shows 306 but stores 256; the next mount shows 256 | store the width on screen when the drag ends | high, not executed | SidebarResize.DragAndRelease | SidebarResize.DragAndReleaseSavingWidth |

## Left out

- KaTeX itself: its HTML, its `throwOnError: false` handling and what its output contains. The renderer is the parameter `render`, and `None` stands for a throw.
- `new Date().toLocaleDateString("zh-CN")`: the formatted date is the parameter `today`.
- The outer `try/catch` of the converter (components/latex-preview.tsx:129-133): only a runtime exception reaches it, and the model has none.
- The preview's debounce timer and `updatePreview` state (components/latex-preview.tsx:136-153): timing and React plumbing.
- PDF mechanics: the html2pdf.js import, `requestAnimationFrame` scheduling, element styling, `alert` and `console`.
- PdfDownload.ExportFor: the HTML handed to the renderer also carries a style sheet before the container; only the container and its content are modelled.
- `uploadFile` and its `FileReader` (hooks/use-file-manager.ts:174-188): file I/O. It ends in `createFile`, which is modelled.
- `generateId` and `new Date()`: ids and timestamps are parameters. A new id is required to be non-empty and unused, as generated ids are.
- UseFileManager.FileStore.SelectFile: the invariant is promised only when the chosen record is one of the list's records, since the hook does not check this.
- `console.log` calls in the file manager: output only.
- `localStorage`: reading and writing are I/O. The stored value is modelled as the number `parseInt` yields, or none when nothing is stored or it does not parse. `parseInt`'s acceptance of text such as `300px` is not modelled.
- SidebarResize.Resizer.constructor: requires `minWidth <= maxWidth`, which the hook's defaults (200 and 400) meet. The hook also accepts options with `minWidth > maxWidth`; it then keeps the default width and every drag gives `minWidth`. That case is not modelled.
- Document event-listener wiring in the resize hook. SidebarResize.Resizer.MouseMove and SidebarResize.Resizer.MouseUp require a drag in progress, because their listeners exist only then.
- PreviewLists.ItemPass: stated only for bodies of one-line, command-free items, each `\item ` followed by its text; for any text the item pass is stated by PreviewLists.ItemPassCuts over the cut PreviewLists.ItemCuts.
- PreviewLists.ClosePass: stated only for such items each on its own line; for any text the closing pass is stated by PreviewLists.ClosePassCuts over the cut PreviewLists.CloseCuts, whose gaps and stretches PreviewLists.CloseCutsGaps, PreviewLists.CloseCutsClean and PreviewLists.CloseCutsTrailing describe.
- PreviewLists.ListItemsOfLines: stated only for one-line, command-free items on their own lines; for any list body the two passes together are stated by PreviewLists.ListItemsCuts.
- PreviewLists.ListItemsInline: stated only for command-free items written on one line; PreviewLists.ListItemsCuts covers any list body.
- PreviewLists.ItemizeOfLines: stated only for an `itemize` of one-line, command-free items on their own lines; for any body whose first `\end{itemize}` closes it the block is stated by PreviewLists.ListBlockReplaced with PreviewLists.ListItemsCuts.
- PreviewLists.ItemizeInline: stated only for an `itemize` of command-free items written on one line; the general block is PreviewLists.ListBlockReplaced with PreviewLists.ListItemsCuts.
- Regular expressions in general: each pattern has its own hand-written matcher, and no regex engine is modelled.
- `toLowerCase` is modelled for ASCII letters only.
- components/latex-editor.tsx (editor configuration), app/page.tsx (UI composition) and lib/utils.ts (class-name and colour helpers) are not part of this model.
