/**
 * JavaScript's `String.prototype.replace` with a global pattern, as one scanner
 * parameterised by a hand-written matcher per pattern.
 *
 * A global replace looks for a match at the current position; on a match it
 * emits the replacement and resumes right after the match, otherwise it copies
 * one character and moves on. Every pattern the converter uses matches at least
 * one character, so the empty-match rule of JavaScript never applies.
 */
module Rewrite {
  import opened Wrappers
  import opened Text

  /** A match at the start of the remaining text: how much it consumes and what replaces it. */
  datatype Hit = Hit(len: nat, out: string)

  /** One pattern with its replacement, tried at the start of the remaining text. */
  type Rule = string -> Option<Hit>

  /** The rule matches a non-empty prefix of `s`. */
  predicate Fires(rule: Rule, s: string) {
    rule(s).Some? && 0 < rule(s).value.len <= |s|
  }

  /** `s.replace(/pattern/g, replacement)`: matches found left to right, never overlapping. */
  function GlobalReplace(s: string, rule: Rule): string
    decreases |s|
  {
    if s == [] then []
    else if Fires(rule, s) then rule(s).value.out + GlobalReplace(s[rule(s).value.len..], rule)
    else [s[0]] + GlobalReplace(s[1..], rule)
  }

  /** No match of `rule` starts inside the first `n` characters of `s`. */
  ghost predicate Quiet(rule: Rule, s: string, n: nat)
    requires n <= |s|
  {
    forall k :: 0 <= k < n ==> !Fires(rule, s[k..])
  }

  /** Text in which no match starts is copied unchanged, and scanning then resumes on the rest. */
  lemma {:induction false} CopiesQuietPrefix(u: string, v: string, rule: Rule)
    requires Quiet(rule, u + v, |u|)
    ensures GlobalReplace(u + v, rule) == u + GlobalReplace(v, rule)
  {
    if u != [] {
      var w := u[1..] + v;
      assert (u + v)[0..] == u + v && (u + v)[1..] == w;
      assert !Fires(rule, u + v);
      forall k | 0 <= k < |u[1..]|
        ensures !Fires(rule, w[k..])
      {
        assert w[k..] == (u + v)[k + 1..];
      }
      CopiesQuietPrefix(u[1..], v, rule);
      assert GlobalReplace(u + v, rule) == [u[0]] + GlobalReplace(w, rule);
      assert [u[0]] + (u[1..] + GlobalReplace(v, rule)) == u + GlobalReplace(v, rule);
    } else {
      assert u + v == v;
    }
  }

  /** A firing at the start of `p + v` that consumes exactly `p` emits its output, then the scan resumes at `v`. */
  lemma ReplacesLeadingMatch(p: string, v: string, rule: Rule, out: string)
    requires p != [] && rule(p + v) == Some(Hit(|p|, out))
    ensures GlobalReplace(p + v, rule) == out + GlobalReplace(v, rule)
  {
    assert (p + v)[|p|..] == v;
  }

  /** A text in which no match starts at all is returned unchanged. */
  lemma CopiesQuietText(s: string, rule: Rule)
    requires Quiet(rule, s, |s|)
    ensures GlobalReplace(s, rule) == s
  {
    assert s + [] == s;
    CopiesQuietPrefix(s, [], rule);
  }

  /** Every match of `rule` starts with the character `c`. */
  ghost predicate LeadsWith(rule: Rule, c: char) {
    forall x :: Fires(rule, x) ==> x[0] == c
  }

  /** Text without the rule's leading character is copied unchanged. */
  lemma CopiesTextWithoutLead(u: string, v: string, rule: Rule, c: char)
    requires LeadsWith(rule, c)
    requires c !in u
    ensures GlobalReplace(u + v, rule) == u + GlobalReplace(v, rule)
  {
    forall k | 0 <= k < |u|
      ensures !Fires(rule, (u + v)[k..])
    {
      assert (u + v)[k..][0] == u[k];
    }
    CopiesQuietPrefix(u, v, rule);
  }

  /** Pieces with separators between them. */
  function Interleave(pieces: seq<string>, seps: seq<string>): string {
    if pieces == [] then []
    else if seps == [] then pieces[0]
    else pieces[0] + seps[0] + Interleave(pieces[1..], seps[1..])
  }

  /** `n` copies of `x`. */
  function Repeat(x: string, n: nat): seq<string> {
    if n == 0 then [] else [x] + Repeat(x, n - 1)
  }

  lemma {:induction false} RepeatLength(x: string, n: nat)
    ensures |Repeat(x, n)| == n
  {
    if n > 0 {
      RepeatLength(x, n - 1);
    }
  }

  lemma InterleaveCons(p: string, sep: string, pieces: seq<string>, seps: seq<string>)
    requires pieces != []
    ensures Interleave([p] + pieces, [sep] + seps) == p + sep + Interleave(pieces, seps)
  {
    assert ([p] + pieces)[1..] == pieces && ([sep] + seps)[1..] == seps;
  }

  /** Text put in front of the first piece comes in front of the whole. */
  lemma InterleaveExtendFirst(x: string, pieces: seq<string>, seps: seq<string>)
    requires |pieces| == |seps| + 1
    ensures Interleave([x + pieces[0]] + pieces[1..], seps) == x + Interleave(pieces, seps)
  {
    var q := [x + pieces[0]] + pieces[1..];
    assert q[1..] == pieces[1..];
    if seps != [] {
      assert x + pieces[0] + seps[0] + Interleave(pieces[1..], seps[1..])
          == x + (pieces[0] + seps[0] + Interleave(pieces[1..], seps[1..]));
    }
  }

  /** The first piece starts the whole. */
  lemma InterleaveFirst(pieces: seq<string>, seps: seq<string>)
    requires pieces != []
    ensures pieces[0] <= Interleave(pieces, seps)
  {
    if seps != [] {
      assert Interleave(pieces, seps) == pieces[0] + (seps[0] + Interleave(pieces[1..], seps[1..]));
    }
  }

  /** `rep` when the text starts with the non-empty literal `pat`: `replace(/pat/g, rep)` with a plain `rep`. */
  function LiteralRule(pat: string, rep: string): Rule {
    x => if pat != [] && pat <= x then Some(Hit(|pat|, rep)) else None
  }

  /** `s.split(pat)` for a non-empty literal separator. */
  function SplitOn(s: string, pat: string): (parts: seq<string>)
    requires pat != []
    decreases |s|
    ensures |parts| >= 1
  {
    match IndexOf(s, pat, 0)
    case Some(k) => [s[..k]] + SplitOn(s[k + |pat|..], pat)
    case None => [s]
  }

  /** `parts.join(sep)`. */
  function JoinWith(parts: seq<string>, sep: string): string {
    if |parts| == 0 then []
    else if |parts| == 1 then parts[0]
    else parts[0] + sep + JoinWith(parts[1..], sep)
  }

  /** The inductive step of SplitJoinRoundTrip. */
  lemma SplitJoinStep(s: string, pat: string, k: nat)
    requires pat != [] && IndexOf(s, pat, 0) == Some(k)
    requires JoinWith(SplitOn(s[k + |pat|..], pat), pat) == s[k + |pat|..]
    ensures JoinWith(SplitOn(s, pat), pat) == s
  {
    var rest := s[k + |pat|..];
    assert SplitOn(s, pat) == [s[..k]] + SplitOn(rest, pat);
    JoinCons(s[..k], SplitOn(rest, pat), pat);
    assert s == s[..k] + s[k..k + |pat|] + rest;
  }

  /** Splitting at a separator and joining with it again gives back the text. */
  lemma {:induction false} SplitJoinRoundTrip(s: string, pat: string)
    requires pat != []
    ensures JoinWith(SplitOn(s, pat), pat) == s
    decreases |s|
  {
    match IndexOf(s, pat, 0)
    case Some(k) =>
      SplitJoinRoundTrip(s[k + |pat|..], pat);
      SplitJoinStep(s, pat, k);
    case None =>
  }

  /** No part of a split contains the separator. */
  lemma {:induction false} SplitPartsFree(s: string, pat: string)
    requires pat != []
    ensures forall part :: part in SplitOn(s, pat) ==> !Contains(part, pat)
    decreases |s|
  {
    match IndexOf(s, pat, 0)
    case Some(k) =>
      SplitPartsFree(s[k + |pat|..], pat);
      forall j | 0 <= j
        ensures !OccursAt(s[..k], pat, j)
      {
        if OccursAt(s[..k], pat, j) {
          assert s[j..][..|pat|] == s[..k][j..][..|pat|];
          assert OccursAt(s, pat, j);
        }
      }
    case None =>
  }

  /** The literal rule fires exactly where the literal occurs. */
  lemma LiteralFires(pat: string, rep: string, x: string)
    requires pat != []
    ensures Fires(LiteralRule(pat, rep), x) <==> pat <= x
    ensures pat <= x ==> LiteralRule(pat, rep)(x) == Some(Hit(|pat|, rep))
  {
  }

  /** Before the first occurrence of the literal nothing is replaced. */
  lemma LiteralReplaceFirst(s: string, pat: string, rep: string, k: nat)
    requires pat != [] && IndexOf(s, pat, 0) == Some(k)
    ensures GlobalReplace(s, LiteralRule(pat, rep)) == s[..k] + rep + GlobalReplace(s[k + |pat|..], LiteralRule(pat, rep))
  {
    var rule := LiteralRule(pat, rep);
    var u, w := s[..k], s[k + |pat|..];
    assert OccursAt(s, pat, k);
    assert s == u + (pat + w);
    forall j | 0 <= j < |u|
      ensures !Fires(rule, (u + (pat + w))[j..])
    {
      assert !OccursAt(s, pat, j);
      LiteralFires(pat, rep, s[j..]);
    }
    CopiesQuietPrefix(u, pat + w, rule);
    LiteralFires(pat, rep, pat + w);
    ReplacesLeadingMatch(pat, w, rule, rep);
  }

  /** A text without the literal is left as it is. */
  lemma LiteralReplaceAbsent(s: string, pat: string, rep: string)
    requires pat != [] && IndexOf(s, pat, 0) == None
    ensures GlobalReplace(s, LiteralRule(pat, rep)) == s
  {
    var rule := LiteralRule(pat, rep);
    forall j | 0 <= j < |s|
      ensures !Fires(rule, s[j..])
    {
      assert !OccursAt(s, pat, j);
      LiteralFires(pat, rep, s[j..]);
    }
    CopiesQuietText(s, rule);
  }

  /** Joining a list with one more part in front. */
  lemma JoinCons(a: string, tail: seq<string>, sep: string)
    requires |tail| >= 1
    ensures JoinWith([a] + tail, sep) == a + sep + JoinWith(tail, sep)
  {
    assert ([a] + tail)[1..] == tail;
  }

  /** The inductive step of LiteralReplaceIsSplitJoin: one occurrence replaced, then the rest. */
  lemma LiteralReplaceStep(s: string, pat: string, rep: string, k: nat)
    requires pat != [] && IndexOf(s, pat, 0) == Some(k)
    requires GlobalReplace(s[k + |pat|..], LiteralRule(pat, rep)) == JoinWith(SplitOn(s[k + |pat|..], pat), rep)
    ensures GlobalReplace(s, LiteralRule(pat, rep)) == JoinWith(SplitOn(s, pat), rep)
  {
    var rest := s[k + |pat|..];
    LiteralReplaceFirst(s, pat, rep, k);
    assert SplitOn(s, pat) == [s[..k]] + SplitOn(rest, pat);
    JoinCons(s[..k], SplitOn(rest, pat), rep);
  }

  /** Replacing a literal everywhere is splitting at it and joining with the replacement. */
  lemma {:induction false} LiteralReplaceIsSplitJoin(s: string, pat: string, rep: string)
    requires pat != []
    ensures GlobalReplace(s, LiteralRule(pat, rep)) == JoinWith(SplitOn(s, pat), rep)
    decreases |s|
  {
    match IndexOf(s, pat, 0)
    case Some(k) =>
      LiteralReplaceIsSplitJoin(s[k + |pat|..], pat, rep);
      LiteralReplaceStep(s, pat, rep, k);
    case None =>
      LiteralReplaceAbsent(s, pat, rep);
  }

  /**
   * JavaScript's GetSubstitution for a pattern without capture groups: in a
   * replacement string, `$$` stands for `$`, `$&` for the matched text, `` $` ``
   * for the text before the match and `$'` for the text after it; every other
   * `$` is literal.
   */
  function Substitute(template: string, matched: string, before: string, after: string): string
    decreases |template|
  {
    if template == [] then []
    else if template[0] == '$' && |template| >= 2 && template[1] in "$&`'" then
      var piece := match template[1]
        case '$' => "$"
        case '&' => matched
        case '`' => before
        case _ => after;
      piece + Substitute(template[2..], matched, before, after)
    else [template[0]] + Substitute(template[1..], matched, before, after)
  }

  /** A replacement string without `$` is inserted as it is. */
  lemma {:induction false} SubstituteWithoutDollar(template: string, matched: string, before: string, after: string)
    requires '$' !in template
    ensures Substitute(template, matched, before, after) == template
    decreases |template|
  {
    if template != [] {
      assert template[0] != '$';
      SubstituteWithoutDollar(template[1..], matched, before, after);
    }
  }

  /**
   * `s.replace(/pat/g, template)` with a replacement STRING, from index `i` on:
   * each match is replaced by the template after substitution against the whole
   * of `s`.
   */
  function ReplaceAllTemplate(s: string, pat: string, template: string, i: nat): string
    decreases |s| - i
  {
    if i >= |s| then []
    else if pat != [] && pat <= s[i..] then
      Substitute(template, pat, s[..i], s[i + |pat|..]) + ReplaceAllTemplate(s, pat, template, i + |pat|)
    else [s[i]] + ReplaceAllTemplate(s, pat, template, i + 1)
  }

  /** One step of a template replace without `$`, where the literal occurs. */
  lemma TemplateStepAtMatch(s: string, pat: string, template: string, i: nat)
    requires '$' !in template
    requires i < |s| && pat != [] && pat <= s[i..]
    requires ReplaceAllTemplate(s, pat, template, i + |pat|) == GlobalReplace(s[i + |pat|..], LiteralRule(pat, template))
    ensures ReplaceAllTemplate(s, pat, template, i) == GlobalReplace(s[i..], LiteralRule(pat, template))
  {
    SubstituteWithoutDollar(template, pat, s[..i], s[i + |pat|..]);
    LiteralFires(pat, template, s[i..]);
    assert s[i..][|pat|..] == s[i + |pat|..];
  }

  /** One step of a template replace without `$`, where the literal does not occur. */
  lemma TemplateStepElsewhere(s: string, pat: string, template: string, i: nat)
    requires i < |s| && !(pat != [] && pat <= s[i..])
    requires ReplaceAllTemplate(s, pat, template, i + 1) == GlobalReplace(s[i + 1..], LiteralRule(pat, template))
    ensures ReplaceAllTemplate(s, pat, template, i) == GlobalReplace(s[i..], LiteralRule(pat, template))
  {
    assert !Fires(LiteralRule(pat, template), s[i..]);
    assert s[i..][0] == s[i];
    assert s[i..][1..] == s[i + 1..];
  }

  /** Without `$` in the template, a template replace is a literal replace. */
  lemma {:induction false} TemplateWithoutDollarIsLiteral(s: string, pat: string, template: string, i: nat)
    requires '$' !in template
    requires i <= |s|
    ensures ReplaceAllTemplate(s, pat, template, i) == GlobalReplace(s[i..], LiteralRule(pat, template))
    decreases |s| - i
  {
    if i < |s| {
      if pat != [] && pat <= s[i..] {
        TemplateWithoutDollarIsLiteral(s, pat, template, i + |pat|);
        TemplateStepAtMatch(s, pat, template, i);
      } else {
        TemplateWithoutDollarIsLiteral(s, pat, template, i + 1);
        TemplateStepElsewhere(s, pat, template, i);
      }
    }
  }
}
