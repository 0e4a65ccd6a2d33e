/**
 * Properties of the last two stages of the converter: line breaks, and the
 * split of the text into blocks at blank lines.
 */
module PreviewBlocks {
  import opened Wrappers
  import opened Text
  import opened Rewrite
  import opened LatexPreview

  // ---------------------------------------------------------------------------
  // Line breaks

  lemma BreakLeadsWithBackslash()
    ensures LeadsWith(BREAK, '\\')
  {
  }

  /** `\\` becomes `<br>` and the scan goes on after it. */
  lemma BreakReplaced(rest: string)
    ensures GlobalReplace("\\\\" + rest, BREAK) == "<br>" + GlobalReplace(rest, BREAK)
  {
    ReplacesLeadingMatch("\\\\", rest, BREAK, "<br>");
  }

  /** No two backslashes in a row. */
  predicate NoDoubleBackslash(s: string) {
    forall k :: 0 <= k < |s| - 1 ==> !(s[k] == '\\' && s[k + 1] == '\\')
  }

  /** The output starts with the `<` of a `<br>` or with the input's own first character. */
  lemma BreakHead(t: string)
    requires t != []
    ensures GlobalReplace(t, BREAK) != []
    ensures GlobalReplace(t, BREAK)[0] == '<' || GlobalReplace(t, BREAK)[0] == t[0]
  {
  }

  lemma NoDoubleAfterBreak(r: string)
    requires NoDoubleBackslash(r)
    ensures NoDoubleBackslash("<br>" + r)
  {
    var s := "<br>" + r;
    assert forall k :: 4 <= k < |s| ==> s[k] == r[k - 4];
  }

  lemma NoDoubleAfterChar(c: char, r: string)
    requires NoDoubleBackslash(r)
    requires c == '\\' && r != [] ==> r[0] != '\\'
    ensures NoDoubleBackslash([c] + r)
  {
    var s := [c] + r;
    assert forall k :: 1 <= k < |s| ==> s[k] == r[k - 1];
  }

  /** Every `\\` pair is replaced: none is left in the output. */
  lemma {:induction false} LineBreaksLeaveNoPair(s: string)
    ensures NoDoubleBackslash(LineBreaks(s))
    decreases |s|
  {
    if s == [] {
    } else if Fires(BREAK, s) {
      LineBreaksLeaveNoPair(s[2..]);
      NoDoubleAfterBreak(LineBreaks(s[2..]));
    } else {
      LineBreaksLeaveNoPair(s[1..]);
      if |s| >= 2 {
        BreakHead(s[1..]);
        assert !("\\\\" <= s);
        assert s[0] == '\\' ==> s[1] != '\\';
      }
      NoDoubleAfterChar(s[0], LineBreaks(s[1..]));
    }
  }

  /** The line-break pattern matches exactly where two backslashes start the text. */
  lemma BreakFiresAt(x: string)
    ensures Fires(BREAK, x) <==> |x| >= 2 && x[0] == '\\' && x[1] == '\\'
  {
    if |x| >= 2 && x[0] == '\\' && x[1] == '\\' {
      assert x[..2] == "\\\\";
    }
  }

  /** Converting line breaks a second time changes nothing. */
  lemma LineBreaksIdempotent(s: string)
    ensures LineBreaks(LineBreaks(s)) == LineBreaks(s)
  {
    var r := LineBreaks(s);
    LineBreaksLeaveNoPair(s);
    forall k | 0 <= k < |r|
      ensures !Fires(BREAK, r[k..])
    {
      BreakFiresAt(r[k..]);
      if k + 1 < |r| {
        assert r[k..][0] == r[k] && r[k..][1] == r[k + 1];
      }
    }
    CopiesQuietText(r, BREAK);
  }

  // ---------------------------------------------------------------------------
  // Splitting at blank lines

  /** The separators `SplitFrom` cut out, in order. */
  ghost function Separators(s: string, p: nat, q: nat): (seps: seq<string>)
    requires p <= q <= |s|
    decreases |s| - q
  {
    if q == |s| then []
    else
      match SeparatorLen(s[q..])
      case Some(e) =>
        [s[q..q + e]] + Separators(s, q + e, q + e)
      case None => Separators(s, p, q + 1)
  }

  /** A split has one more piece than it cuts out separators. */
  lemma {:induction false} SeparatorsCount(s: string, p: nat, q: nat)
    requires p <= q <= |s|
    ensures |SplitFrom(s, p, q)| == |Separators(s, p, q)| + 1
    decreases |s| - q
  {
    if q < |s| {
      match SeparatorLen(s[q..])
      case Some(e) =>
        SeparatorsCount(s, q + e, q + e);
        CutAt(s, p, q, e);
      case None =>
        SeparatorsCount(s, p, q + 1);
        SkipAt(s, p, q);
    }
  }

  lemma SeparatorCut(x: string, e: nat)
    requires IsSeparator(x, e)
    ensures IsSeparator(x[..e], e)
  {
    SeparatorLocal(x, x[..e], e);
  }

  /** The separator found at `q` is a blank line in its own right. */
  lemma SeparatorFoundAt(s: string, q: nat, e: nat)
    requires q < |s| && SeparatorLen(s[q..]) == Some(e)
    ensures q + e <= |s| && IsSeparator(s[q..q + e], e)
  {
    SeparatorLenMatches(s[q..]);
    SeparatorCut(s[q..], e);
    assert s[q..q + e] == s[q..][..e];
  }

  lemma BlankLinesCons(h: string, rest: seq<string>, all: seq<string>)
    requires all == [h] + rest && IsSeparator(h, |h|)
    requires forall sep :: sep in rest ==> IsSeparator(sep, |sep|)
    ensures forall sep :: sep in all ==> IsSeparator(sep, |sep|)
  {
  }

  lemma {:induction false} SeparatorsAreBlankLines(s: string, p: nat, q: nat)
    requires p <= q <= |s|
    ensures forall sep :: sep in Separators(s, p, q) ==> IsSeparator(sep, |sep|)
    decreases |s| - q
  {
    if q < |s| {
      match SeparatorLen(s[q..])
      case Some(e) =>
        SeparatorsAreBlankLines(s, q + e, q + e);
        CutSeps(s, p, q, e);
        SeparatorFoundAt(s, q, e);
        BlankLinesCons(s[q..q + e], Separators(s, q + e, q + e), Separators(s, p, q));
      case None =>
        SeparatorsAreBlankLines(s, p, q + 1);
        SkipAt(s, p, q);
    }
  }

  lemma RebuildStep(whole: string, a: string, sep: string, rest: string,
                    all: seq<string>, allSeps: seq<string>, pieces: seq<string>, seps: seq<string>)
    requires all == [a] + pieces && allSeps == [sep] + seps
    requires Interleave(pieces, seps) == rest && whole == a + sep + rest
    ensures Interleave(all, allSeps) == whole
  {
    assert all[1..] == pieces && allSeps[1..] == seps;
  }

  lemma SliceThree(s: string, p: nat, q: nat, r: nat)
    requires p <= q <= r <= |s|
    ensures s[p..] == s[p..q] + s[q..r] + s[r..]
  {
    assert s[p..] == s[p..q] + s[q..];
    assert s[q..] == s[q..r] + s[r..];
  }

  /** One step of the split at a separator found at `q`. */
  lemma CutAt(s: string, p: nat, q: nat, e: nat)
    requires p <= q < |s| && SeparatorLen(s[q..]) == Some(e)
    ensures q + e <= |s|
    ensures SplitFrom(s, p, q) == [s[p..q]] + SplitFrom(s, q + e, q + e)
    ensures Separators(s, p, q) == [s[q..q + e]] + Separators(s, q + e, q + e)
  {
    CutSeps(s, p, q, e);
  }

  lemma CutSeps(s: string, p: nat, q: nat, e: nat)
    requires p <= q < |s| && SeparatorLen(s[q..]) == Some(e)
    ensures q + e <= |s|
    ensures Separators(s, p, q) == [s[q..q + e]] + Separators(s, q + e, q + e)
  {
  }

  lemma RebuildAtSeparator(s: string, p: nat, q: nat, e: nat)
    requires p <= q < |s| && SeparatorLen(s[q..]) == Some(e)
    requires Interleave(SplitFrom(s, q + e, q + e), Separators(s, q + e, q + e)) == s[q + e..]
    ensures Interleave(SplitFrom(s, p, q), Separators(s, p, q)) == s[p..]
  {
    CutAt(s, p, q, e);
    SliceThree(s, p, q, q + e);
    RebuildStep(s[p..], s[p..q], s[q..q + e], s[q + e..], SplitFrom(s, p, q), Separators(s, p, q),
                SplitFrom(s, q + e, q + e), Separators(s, q + e, q + e));
  }

  lemma RebuildElsewhere(s: string, p: nat, q: nat)
    requires p <= q < |s| && SeparatorLen(s[q..]).None?
    requires Interleave(SplitFrom(s, p, q + 1), Separators(s, p, q + 1)) == s[p..]
    ensures Interleave(SplitFrom(s, p, q), Separators(s, p, q)) == s[p..]
  {
    SkipAt(s, p, q);
  }

  /** One step of the split past a position where no separator starts. */
  lemma SkipAt(s: string, p: nat, q: nat)
    requires p <= q < |s| && SeparatorLen(s[q..]).None?
    ensures SplitFrom(s, p, q) == SplitFrom(s, p, q + 1)
    ensures Separators(s, p, q) == Separators(s, p, q + 1)
  {
  }

  /** The pieces of the split, with the separators put back between them, are the original text. */
  lemma {:induction false} SplitRebuilds(s: string, p: nat, q: nat)
    requires p <= q <= |s|
    ensures Interleave(SplitFrom(s, p, q), Separators(s, p, q)) == s[p..]
    decreases |s| - q
  {
    if q < |s| {
      match SeparatorLen(s[q..])
      case Some(e) =>
        SplitRebuilds(s, q + e, q + e);
        RebuildAtSeparator(s, p, q, e);
      case None =>
        SplitRebuilds(s, p, q + 1);
        RebuildElsewhere(s, p, q);
    }
  }

  /** Whether `x` starts with a separator depends only on the characters the separator covers. */
  lemma SeparatorLocal(x: string, y: string, e: nat)
    requires e <= |x| && e <= |y| && x[..e] == y[..e]
    ensures IsSeparator(x, e) <==> IsSeparator(y, e)
  {
    if 2 <= e {
      var t := x[..e];
      assert x[0] == t[0] && y[0] == t[0];
      assert x[e - 1] == t[e - 1] && y[e - 1] == t[e - 1];
      var u, v := x[1..e - 1], y[1..e - 1];
      assert u == v by {
        forall i | 0 <= i < |u|
          ensures u[i] == v[i]
        {
          assert u[i] == t[1 + i] == v[i];
        }
      }
    }
  }

  /** No blank line inside `t`. */
  ghost predicate NoBlankLine(t: string) {
    forall k: nat, e: nat :: k <= |t| ==> !IsSeparator(t[k..], e)
  }

  /** A piece `s[p..q]` with no separator starting inside it holds no blank line. */
  lemma PieceHasNoBlankLine(s: string, p: nat, q: nat)
    requires p <= q <= |s|
    requires forall k :: p <= k < q ==> SeparatorLen(s[k..]).None?
    ensures NoBlankLine(s[p..q])
  {
    var t := s[p..q];
    forall k: nat, e: nat | k <= |t| && e <= |t| - k
      ensures !IsSeparator(t[k..], e)
    {
      if k < |t| {
        assert t[k..][..e] == s[p + k..][..e];
        SeparatorLenMatches(s[p + k..]);
        SeparatorLocal(t[k..], s[p + k..], e);
      }
    }
  }

  /** `s[p..q]` has no separator starting inside it: the invariant of `SplitFrom`'s scan. */
  ghost predicate ScannedClean(s: string, p: nat, q: nat)
    requires p <= q <= |s|
  {
    forall k :: p <= k < q ==> SeparatorLen(s[k..]).None?
  }

  lemma PiecesStep(s: string, p: nat, q: nat)
    requires p <= q < |s| && ScannedClean(s, p, q)
    requires SeparatorLen(s[q..]).Some?
    ensures NoBlankLine(s[p..q])
  {
    PieceHasNoBlankLine(s, p, q);
  }

  lemma {:induction false} PiecesHaveNoBlankLine(s: string, p: nat, q: nat)
    requires p <= q <= |s| && ScannedClean(s, p, q)
    ensures forall t :: t in SplitFrom(s, p, q) ==> NoBlankLine(t)
    decreases |s| - q
  {
    if q == |s| {
      PieceHasNoBlankLine(s, p, q);
      assert s[p..] == s[p..q];
    } else {
      match SeparatorLen(s[q..])
      case Some(e) =>
        PiecesStep(s, p, q);
        PiecesHaveNoBlankLine(s, q + e, q + e);
      case None =>
        PiecesHaveNoBlankLine(s, p, q + 1);
    }
  }

  /**
   * The split is exact: the pieces with the cut-out separators between them
   * rebuild the text, every separator is a blank line, and no piece holds one.
   */
  lemma SplitParagraphsSound(s: string)
    ensures |SplitParagraphs(s)| == |Separators(s, 0, 0)| + 1
    ensures Interleave(SplitParagraphs(s), Separators(s, 0, 0)) == s
    ensures forall sep :: sep in Separators(s, 0, 0) ==> IsSeparator(sep, |sep|)
    ensures forall t :: t in SplitParagraphs(s) ==> NoBlankLine(t)
  {
    SeparatorsCount(s, 0, 0);
    SplitRebuilds(s, 0, 0);
    SeparatorsAreBlankLines(s, 0, 0);
    PiecesHaveNoBlankLine(s, 0, 0);
  }

  /** Text without a blank line is one piece. */
  lemma {:induction false} NoSeparatorOnePiece(s: string, p: nat, q: nat)
    requires p <= q <= |s|
    requires forall k :: q <= k < |s| ==> SeparatorLen(s[k..]).None?
    ensures SplitFrom(s, p, q) == [s[p..]]
    decreases |s| - q
  {
    if q < |s| {
      NoSeparatorOnePiece(s, p, q + 1);
    }
  }

  // ---------------------------------------------------------------------------
  // Paragraphs

  lemma {:induction false} PiecesOfBlankAreBlank(s: string, p: nat, q: nat)
    requires p <= q <= |s| && IsBlank(s)
    ensures forall t :: t in SplitFrom(s, p, q) ==> IsBlank(t)
    decreases |s| - q
  {
    if q == |s| {
      assert forall k :: 0 <= k < |s| - p ==> s[p..][k] == s[p + k];
    } else {
      match SeparatorLen(s[q..])
      case Some(e) =>
        assert forall k :: 0 <= k < q - p ==> s[p..q][k] == s[p + k];
        PiecesOfBlankAreBlank(s, q + e, q + e);
      case None =>
        PiecesOfBlankAreBlank(s, p, q + 1);
    }
  }

  /** The filter keeps exactly the pieces that are not blank. */
  lemma {:induction false} NonBlankMembers(pieces: seq<string>)
    ensures forall t :: t in NonBlank(pieces) <==> t in pieces && !IsBlank(t)
    decreases |pieces|
  {
    if pieces != [] {
      NonBlankMembers(pieces[1..]);
      assert pieces == [pieces[0]] + pieces[1..];
    }
  }

  /** The filter works piece by piece, so the pieces it keeps stay in their order. */
  lemma {:induction false} NonBlankAppend(a: seq<string>, b: seq<string>)
    ensures NonBlank(a + b) == NonBlank(a) + NonBlank(b)
    decreases |a|
  {
    if a != [] {
      assert (a + b)[0] == a[0] && (a + b)[1..] == a[1..] + b;
      NonBlankAppend(a[1..], b);
    } else {
      assert a + b == b;
    }
  }

  /** A list of blank pieces filters to nothing. */
  lemma {:induction false} NonBlankOfBlanks(pieces: seq<string>)
    requires forall t :: t in pieces ==> IsBlank(t)
    ensures NonBlank(pieces) == []
    decreases |pieces|
  {
    if pieces != [] {
      assert pieces[0] in pieces;
      NonBlankOfBlanks(pieces[1..]);
    }
  }

  /** A blank body renders as nothing. */
  lemma BlankRendersEmpty(s: string)
    requires IsBlank(s)
    ensures Paragraphs(s) == ""
  {
    PiecesOfBlankAreBlank(s, 0, 0);
    NonBlankOfBlanks(SplitParagraphs(s));
  }

  /** Text without a blank line is one block: kept as it is when it starts with a block tag, else wrapped in `<p>`. */
  lemma SingleBlock(s: string)
    requires !IsBlank(s)
    requires forall k :: 0 <= k < |s| ==> SeparatorLen(s[k..]).None?
    ensures Paragraphs(s) == FormatBlock(s)
    ensures IsStructural(Trim(s)) ==> Paragraphs(s) == Trim(s)
    ensures !IsStructural(Trim(s)) ==> Paragraphs(s) == "<p>" + Trim(s) + "</p>"
  {
    NoSeparatorOnePiece(s, 0, 0);
    assert s[0..] == s;
    assert NonBlank([s]) == [s] by {
      assert [s][1..] == [];
    }
    assert FormatBlocks([s]) == [FormatBlock(s)] by {
      assert [s][1..] == [];
    }
  }

  /** A formatted block is never empty and starts with `<`. */
  lemma FormatBlockShape(piece: string)
    requires !IsBlank(piece)
    ensures FormatBlock(piece) != [] && FormatBlock(piece)[0] == '<'
    ensures !IsStructural(Trim(piece)) ==> Trim(piece) <= FormatBlock(piece)[3..]
  {
    BlockShape(Trim(piece));
  }

  lemma BlockShape(t: string)
    requires t != []
    ensures var f := if IsStructural(t) then t else "<p>" + t + "</p>";
      f != [] && f[0] == '<' && (!IsStructural(t) ==> t <= f[3..])
  {
    if !IsStructural(t) {
      assert ("<p>" + t + "</p>")[3..] == t + "</p>";
    }
  }
}
