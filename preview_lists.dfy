/**
 * Properties of the list stage: what `\item` lines become, and how a whole
 * `itemize` or `enumerate` block is rewritten.
 */
module PreviewLists {
  import opened Wrappers
  import opened Text
  import opened Rewrite
  import opened LatexPreview

  /** Item text on one line, free of commands. */
  predicate PlainItem(t: string) {
    '\\' !in t && '\n' !in t
  }

  /**
   * A list body: each item is `\item`, a space and its text, with `lead` in
   * front of every item and at the end (a line break for one item per line,
   * nothing for items written on one line).
   */
  function ItemLines(ts: seq<string>, lead: string): string {
    if ts == [] then lead else lead + "\\item " + ts[0] + ItemLines(ts[1..], lead)
  }

  /** The body after `\item\s` became `<li>`. */
  function Tagged(ts: seq<string>, lead: string): string {
    if ts == [] then lead else lead + LI + ts[0] + Tagged(ts[1..], lead)
  }

  /** The body after each line break in front of a `<li>` became `</li>\n`. */
  function Closed(ts: seq<string>): string {
    if ts == [] then "\n" else "</li>\n" + LI + ts[0] + Closed(ts[1..])
  }

  lemma ItemLeadsWithBackslash()
    ensures LeadsWith(ITEM, '\\')
  {
    forall x | Fires(ITEM, x)
      ensures x[0] == '\\'
    {
      assert ItemAt(x);
    }
  }

  lemma CloseLeadsWithNewline()
    ensures LeadsWith(CLOSE_ITEM, '\n')
  {
    forall x | Fires(CLOSE_ITEM, x)
      ensures x[0] == '\n'
    {
      assert GapBeforeItem(x).Some?;
    }
  }

  lemma ItemStep(lead: string, t: string, rest: string, done: string)
    requires '\\' !in lead && PlainItem(t)
    requires GlobalReplace(rest, ITEM) == done
    ensures GlobalReplace(lead + "\\item " + t + rest, ITEM) == lead + LI + t + done
  {
    ItemLeadsWithBackslash();
    var x := "\\item " + (t + rest);
    assert GlobalReplace(x, ITEM) == LI + (t + done) by {
      assert ItemAt(x) by {
        assert x[5] == ' ';
      }
      ReplacesLeadingMatch("\\item ", t + rest, ITEM, LI);
      CopiesTextWithoutLead(t, rest, ITEM, '\\');
    }
    assert lead + "\\item " + t + rest == lead + x;
    CopiesTextWithoutLead(lead, x, ITEM, '\\');
    assert lead + LI + t + done == lead + (LI + (t + done));
  }

  /** `\item ` in front of each item becomes `<li>`; the item texts are kept. */
  lemma {:induction false} ItemPass(ts: seq<string>, lead: string)
    requires '\\' !in lead
    requires forall t :: t in ts ==> PlainItem(t)
    ensures GlobalReplace(ItemLines(ts, lead), ITEM) == Tagged(ts, lead)
    decreases |ts|
  {
    if ts == [] {
      ItemLeadsWithBackslash();
      CopiesTextWithoutLead(lead, [], ITEM, '\\');
      assert lead + [] == lead;
      assert GlobalReplace([], ITEM) == [];
    } else {
      assert ts[0] in ts;
      ItemPass(ts[1..], lead);
      ItemStep(lead, ts[0], ItemLines(ts[1..], lead), Tagged(ts[1..], lead));
    }
  }

  lemma CloseStep(t: string, rest: string, done: string)
    requires PlainItem(t)
    requires GlobalReplace(rest, CLOSE_ITEM) == done
    ensures GlobalReplace("\n" + LI + t + rest, CLOSE_ITEM) == "</li>\n" + LI + t + done
  {
    CloseLeadsWithNewline();
    var y := LI + t;
    var x := "\n" + y + rest;
    Regroup("\n", LI, t, rest);
    assert x[1..] == y + rest;
    assert !IsWs(x[1]);
    assert LeadingWs(x[1..]) == 0;
    assert GapBeforeItem(x) == Some(1);
    ReplacesLeadingMatch("\n", y + rest, CLOSE_ITEM, "</li>\n");
    assert '\n' !in y;
    CopiesTextWithoutLead(y, rest, CLOSE_ITEM, '\n');
    Regroup("</li>\n", LI, t, done);
  }

  lemma Regroup(a: string, b: string, c: string, d: string)
    ensures a + b + c + d == a + (b + c) + d == a + (b + c + d)
  {
  }

  /** Every line break in front of an item becomes `</li>` and a line break; the last item stays open. */
  lemma {:induction false} ClosePass(ts: seq<string>)
    requires forall t :: t in ts ==> PlainItem(t)
    ensures GlobalReplace(Tagged(ts, "\n"), CLOSE_ITEM) == Closed(ts)
    decreases |ts|
  {
    if ts == [] {
      assert GapBeforeItem("\n") == None;
      assert "\n"[1..] == [];
      assert GlobalReplace([], CLOSE_ITEM) == [];
      assert "\n" + [] == "\n";
    } else {
      assert ts[0] in ts;
      ClosePass(ts[1..]);
      assert Tagged(ts, "\n") == "\n" + LI + ts[0] + Tagged(ts[1..], "\n");
      CloseStep(ts[0], Tagged(ts[1..], "\n"), Closed(ts[1..]));
    }
  }

  /**
   * A list body of one-line items becomes one `<li>` per item, in order, each
   * closed by `</li>` in front of the next; a stray `</li>` comes first and
   * the last item is closed by the block's own `</li>`.
   */
  lemma ListItemsOfLines(ts: seq<string>)
    requires forall t :: t in ts ==> PlainItem(t)
    ensures ListItems(ItemLines(ts, "\n")) == Closed(ts)
  {
    ItemPass(ts, "\n");
    ClosePass(ts);
  }

  lemma {:induction false} TaggedInlineHasNoNewline(ts: seq<string>)
    requires forall t :: t in ts ==> PlainItem(t)
    ensures '\n' !in Tagged(ts, "") && '\\' !in Tagged(ts, "")
    decreases |ts|
  {
    if ts != [] {
      assert ts[0] in ts;
      TaggedInlineHasNoNewline(ts[1..]);
    }
  }

  /** Items written on one line become `<li>` followed by their text, with no closing tags in between. */
  lemma ListItemsInline(ts: seq<string>)
    requires forall t :: t in ts ==> PlainItem(t)
    ensures ListItems(ItemLines(ts, "")) == Tagged(ts, "")
  {
    ItemPass(ts, "");
    TaggedInlineHasNoNewline(ts);
    CloseLeadsWithNewline();
    CopiesTextWithoutLead(Tagged(ts, ""), [], CLOSE_ITEM, '\n');
    assert Tagged(ts, "") + [] == Tagged(ts, "");
    assert GlobalReplace([], CLOSE_ITEM) == [];
  }

  /** `IndexOf` is pinned down by its first-occurrence contract. */
  lemma IndexOfIs(s: string, pat: string, from: nat, j: nat)
    requires from <= j && OccursAt(s, pat, j)
    requires forall k :: from <= k < j ==> !OccursAt(s, pat, k)
    ensures IndexOf(s, pat, from) == Some(j)
  {
  }

  /** Text `items` in which the closing tag `close` first occurs at its very end. */
  predicate ClosesAtEnd(items: string, close: string) {
    IndexOf(items + close, close, 0) == Some(|items|)
  }

  lemma ClosingTagFound(open: string, items: string, close: string, rest: string)
    requires ClosesAtEnd(items, close)
    ensures IndexOf(open + items + close + rest, close, |open|) == Some(|open| + |items|)
  {
    var x := open + items + close + rest;
    var y := items + close;
    assert x == open + y + rest;
    assert x[|open| + |items|..] == close + rest;
    forall k | |open| <= k < |open| + |items|
      ensures OccursAt(x, close, k) == OccursAt(y, close, k - |open|)
    {
      assert x[k..][..|close|] == y[k - |open|..][..|close|];
    }
    IndexOfIs(x, close, |open|, |open| + |items|);
  }

  /** The text of a list environment around `items`. */
  function Environment(env: string, items: string): string {
    BeginTag(env) + items + EndTag(env)
  }

  /** `open` starts `open + items + close + rest`, and `items` follows it. */
  lemma ConcatParts(open: string, items: string, close: string, rest: string)
    ensures open <= open + items + close + rest
    ensures (open + items + close + rest)[|open|..|open| + |items|] == items
  {
    var x := open + items + close + rest;
    assert x[..|open|] == open;
  }

  lemma EnvironmentBodyAt(x: string, env: string, n: nat, items: string)
    requires BeginTag(env) <= x
    requires IndexOf(x, EndTag(env), |BeginTag(env)|) == Some(n)
    requires n <= |x| && x[|BeginTag(env)|..n] == items
    ensures EnvironmentBody(x, env) == Some((n + |EndTag(env)|, items))
  {
  }

  lemma EnvironmentParts(env: string, items: string, rest: string)
    ensures Environment(env, items) + rest == BeginTag(env) + items + EndTag(env) + rest
    ensures |Environment(env, items)| == |BeginTag(env)| + |items| + |EndTag(env)|
  {
  }

  /** The environment `Environment(env, items)` is found whole, with `items` as its body. */
  lemma EnvironmentFound(env: string, items: string, rest: string)
    requires ClosesAtEnd(items, EndTag(env))
    ensures EnvironmentBody(Environment(env, items) + rest, env) == Some((|Environment(env, items)|, items))
  {
    var open, close := BeginTag(env), EndTag(env);
    EnvironmentParts(env, items, rest);
    ClosingTagFound(open, items, close, rest);
    ConcatParts(open, items, close, rest);
    EnvironmentBodyAt(open + items + close + rest, env, |open| + |items|, items);
  }

  lemma ListHitIs(x: string, env: string, tag: string, n: nat, items: string)
    requires EnvironmentBody(x, env) == Some((n, items))
    ensures ListHit(x, env, tag) == Some(Hit(n, ListBlock(tag, ListItems(items))))
  {
  }

  lemma ListHitAt(env: string, tag: string, items: string, rest: string)
    requires ClosesAtEnd(items, EndTag(env))
    ensures ListHit(Environment(env, items) + rest, env, tag)
         == Some(Hit(|Environment(env, items)|, ListBlock(tag, ListItems(items))))
  {
    EnvironmentFound(env, items, rest);
    ListHitIs(Environment(env, items) + rest, env, tag, |Environment(env, items)|, items);
  }

  /**
   * A list block is replaced by `<tag>`, the rewritten items and `</li></tag>`,
   * and the scan goes on after `\end{env}`.
   */
  lemma ListBlockReplaced(env: string, tag: string, items: string, rest: string)
    requires ClosesAtEnd(items, EndTag(env))
    ensures GlobalReplace(Environment(env, items) + rest, ListRule(env, tag))
         == ListBlock(tag, ListItems(items)) + GlobalReplace(rest, ListRule(env, tag))
  {
    ListHitAt(env, tag, items, rest);
    ReplacesLeadingMatch(Environment(env, items), rest, ListRule(env, tag), ListBlock(tag, ListItems(items)));
  }

  /** Every backslash in `s` is followed by an `i`, as in `\item`. */
  predicate BackslashesStartItems(s: string) {
    forall k :: 0 <= k < |s| && s[k] == '\\' ==> k + 1 < |s| && s[k + 1] == 'i'
  }

  lemma BackslashesPrepend(lead: string, t: string, r: string)
    requires '\\' !in lead && PlainItem(t) && BackslashesStartItems(r)
    ensures BackslashesStartItems(lead + "\\item " + t + r)
  {
    var h := lead + "\\item ";
    assert h[|lead|] == '\\' && h[|lead| + 1] == 'i';
    var s := h + t + r;
    assert forall k :: 0 <= k < |h| ==> s[k] == h[k];
    assert forall k :: |h| <= k < |h| + |t| ==> s[k] == t[k - |h|];
    assert forall k :: |h| + |t| <= k < |s| ==> s[k] == r[k - |h| - |t|];
  }

  lemma {:induction false} ItemLinesBackslashes(ts: seq<string>, lead: string)
    requires '\\' !in lead
    requires forall t :: t in ts ==> PlainItem(t)
    ensures BackslashesStartItems(ItemLines(ts, lead))
    decreases |ts|
  {
    if ts != [] {
      assert ts[0] in ts;
      ItemLinesBackslashes(ts[1..], lead);
      BackslashesPrepend(lead, ts[0], ItemLines(ts[1..], lead));
    }
  }

  /** A body of plain items holds no `\end{..}`, so the environment closes at its own end tag. */
  lemma ItemLinesCloseAtEnd(ts: seq<string>, lead: string, env: string)
    requires '\\' !in lead
    requires forall t :: t in ts ==> PlainItem(t)
    ensures ClosesAtEnd(ItemLines(ts, lead), EndTag(env))
  {
    var items := ItemLines(ts, lead);
    var close := EndTag(env);
    var y := items + close;
    ItemLinesBackslashes(ts, lead);
    assert close[0] == '\\' && close[1] == 'e';
    forall k | 0 <= k < |items|
      ensures !OccursAt(y, close, k)
    {
      assert y[k] == items[k] && y[k..][0] == y[k] && y[k..][1] == y[k + 1];
      assert k + 1 < |items| ==> y[k + 1] == items[k + 1];
      assert k + 1 == |items| ==> y[k + 1] == close[0];
    }
    assert y[|items|..] == close;
    IndexOfIs(y, close, 0, |items|);
  }

  lemma ListRuleLeadsWithBackslash(env: string, tag: string)
    ensures LeadsWith(ListRule(env, tag), '\\')
  {
    forall x | Fires(ListRule(env, tag), x)
      ensures x[0] == '\\'
    {
      assert BeginTag(env)[0] == '\\';
    }
  }

  lemma ItemizePass(ts: seq<string>, lead: string, body: string)
    requires '\\' !in lead
    requires forall t :: t in ts ==> PlainItem(t)
    requires ListItems(ItemLines(ts, lead)) == body
    ensures GlobalReplace(Environment("itemize", ItemLines(ts, lead)), ITEMIZE) == ListBlock("ul", body)
  {
    ItemLinesCloseAtEnd(ts, lead, "itemize");
    ListBlockReplaced("itemize", "ul", ItemLines(ts, lead), []);
    assert Environment("itemize", ItemLines(ts, lead)) + [] == Environment("itemize", ItemLines(ts, lead));
    assert GlobalReplace([], ITEMIZE) == [];
    assert ListBlock("ul", body) + [] == ListBlock("ul", body);
  }

  lemma EnumeratePassCopies(out: string)
    requires '\\' !in out
    ensures GlobalReplace(out, ENUMERATE) == out
  {
    ListRuleLeadsWithBackslash("enumerate", "ol");
    CopiesTextWithoutLead(out, [], ENUMERATE, '\\');
    assert out + [] == out;
    assert GlobalReplace([], ENUMERATE) == [];
  }

  /** A list block with no backslash in its tag or body has none at all. */
  lemma ListBlockPlain(tag: string, body: string)
    requires '\\' !in tag && '\\' !in body
    ensures '\\' !in ListBlock(tag, body)
  {
    assert '\\' !in "<" && '\\' !in ">" && '\\' !in "</li></";
  }

  /** Both passes of the list stage over an `itemize` environment of plain items. */
  lemma ItemizeWhole(ts: seq<string>, lead: string, body: string)
    requires '\\' !in lead
    requires forall t :: t in ts ==> PlainItem(t)
    requires ListItems(ItemLines(ts, lead)) == body && '\\' !in body
    ensures Lists(Environment("itemize", ItemLines(ts, lead))) == ListBlock("ul", body)
  {
    ItemizePass(ts, lead, body);
    ListBlockPlain("ul", body);
    EnumeratePassCopies(ListBlock("ul", body));
  }

  /**
   * An `itemize` environment with one item per line becomes a `ul` with one
   * `<li>` per item, in order; each item is closed in front of the next, the
   * last one by the block's own `</li>`, and a stray `</li>` follows `<ul>`.
   */
  lemma ItemizeOfLines(ts: seq<string>)
    requires forall t :: t in ts ==> PlainItem(t)
    ensures Lists(Environment("itemize", ItemLines(ts, "\n"))) == ListBlock("ul", Closed(ts))
  {
    ListItemsOfLines(ts);
    ClosedPlain(ts);
    ItemizeWhole(ts, "\n", Closed(ts));
  }

  /** An `itemize` environment written on one line: each item opens an `<li>` and only the last is closed. */
  lemma ItemizeInline(ts: seq<string>)
    requires forall t :: t in ts ==> PlainItem(t)
    ensures Lists(Environment("itemize", ItemLines(ts, ""))) == ListBlock("ul", Tagged(ts, ""))
  {
    ListItemsInline(ts);
    TaggedInlineHasNoNewline(ts);
    ItemizeWhole(ts, "", Tagged(ts, ""));
  }

  /** Two items written on one line. */
  lemma ItemizeTwoInline(a: string, b: string)
    requires PlainItem(a) && PlainItem(b)
    ensures Lists(Environment("itemize", "\\item " + a + "\\item " + b)) == "<ul><li>" + a + "<li>" + b + "</li></ul>"
  {
    assert forall t :: t in [a, b] ==> PlainItem(t);
    ItemizeInline([a, b]);
    TwoItems(a, b);
    TwoItemsBlock(a, b);
  }

  lemma TwoItems(a: string, b: string)
    ensures ItemLines([a, b], "") == "\\item " + a + "\\item " + b
    ensures Tagged([a, b], "") == LI + a + (LI + b)
  {
    assert [a, b][1..] == [b] && [b][1..] == [];
    assert ItemLines([b], "") == "" + "\\item " + b + "";
    assert ItemLines([a, b], "") == "" + "\\item " + a + ("\\item " + b);
    assert Tagged([b], "") == "" + LI + b + "";
    assert Tagged([a, b], "") == "" + LI + a + (LI + b);
  }

  lemma TwoItemsBlock(a: string, b: string)
    ensures ListBlock("ul", LI + a + (LI + b)) == "<ul><li>" + a + "<li>" + b + "</li></ul>"
  {
    assert "<" + "ul" + ">" + LI == "<ul><li>";
    assert "</li></" + "ul" + ">" == "</li></ul>";
  }

  lemma {:induction false} ClosedPlain(ts: seq<string>)
    requires forall t :: t in ts ==> PlainItem(t)
    ensures '\\' !in Closed(ts)
    decreases |ts|
  {
    if ts != [] {
      assert ts[0] in ts;
      ClosedPlain(ts[1..]);
    }
  }

  // ---------------------------------------------------------------------------
  // Any text: each pass cuts the text at its matches

  /** `\item` and one white-space character, what `/\\item\s/` matches. */
  predicate ItemMark(m: string) {
    |m| == 6 && ItemAt(m)
  }

  /** No `\item` followed by white space starts anywhere in `c`. */
  predicate NoItemIn(c: string) {
    forall k :: 0 <= k < |c| ==> !ItemAt(c[k..])
  }

  /**
   * `s` cut at each `\item` followed by white space, left to right: the
   * stretches between the marks, and the marks.
   */
  function ItemCuts(s: string): (r: (seq<string>, seq<string>))
    decreases |s|
    ensures |r.0| == |r.1| + 1
  {
    if s == [] then ([[]], [])
    else if ItemAt(s) then
      var r := ItemCuts(s[6..]);
      ([[]] + r.0, [s[..6]] + r.1)
    else
      var r := ItemCuts(s[1..]);
      ([[s[0]] + r.0[0]] + r.0[1..], r.1)
  }

  lemma ItemAtPrefix(p: string, s: string)
    requires p <= s
    ensures ItemAt(p) ==> ItemAt(s)
  {
    assert p == s[..|p|];
    assert |p| > 5 ==> s[5] == p[5] && p[..5] == s[..5];
  }

  /** A character in front of a mark-free stretch, where no mark starts either, keeps it mark-free. */
  lemma NoItemInExtend(s: string, c: string)
    requires s != [] && !ItemAt(s) && NoItemIn(c) && c <= s[1..]
    ensures NoItemIn([s[0]] + c)
  {
    var x := [s[0]] + c;
    assert x <= s;
    ItemAtPrefix(x, s);
    forall k | 1 <= k < |x|
      ensures !ItemAt(x[k..])
    {
      assert x[k..] == c[k - 1..];
    }
    assert x[0..] == x;
  }

  /**
   * The cuts put back together give `s`; every mark is `\item` and one
   * white-space character; no stretch holds such a mark.
   */
  lemma {:induction false} ItemCutsSound(s: string)
    ensures Interleave(ItemCuts(s).0, ItemCuts(s).1) == s
    ensures forall m :: m in ItemCuts(s).1 ==> ItemMark(m)
    ensures forall c :: c in ItemCuts(s).0 ==> NoItemIn(c)
    decreases |s|
  {
    if s == [] {
    } else if ItemAt(s) {
      var r := ItemCuts(s[6..]);
      ItemCutsSound(s[6..]);
      InterleaveCons([], s[..6], r.0, r.1);
      assert s == [] + s[..6] + s[6..];
      ItemAtPrefix(s[..6], s[..6]);
      assert s[..6][..5] == s[..5];
    } else {
      var r := ItemCuts(s[1..]);
      ItemCutsSound(s[1..]);
      InterleaveExtendFirst([s[0]], r.0, r.1);
      assert s == [s[0]] + s[1..];
      InterleaveFirst(r.0, r.1);
      assert r.0[0] in r.0;
      NoItemInExtend(s, r.0[0]);
      assert forall c :: c in r.0[1..] ==> c in r.0;
    }
  }

  /** The item pass replaces exactly the marks `ItemCuts` finds by `<li>`, one for one, and keeps the stretches between them. */
  lemma {:induction false} ItemPassCuts(s: string)
    ensures GlobalReplace(s, ITEM) == Interleave(ItemCuts(s).0, Repeat(LI, |ItemCuts(s).1|))
    decreases |s|
  {
    var n := |ItemCuts(s).1|;
    if s == [] {
    } else if ItemAt(s) {
      var r := ItemCuts(s[6..]);
      ItemPassCuts(s[6..]);
      assert Repeat(LI, n) == [LI] + Repeat(LI, |r.1|);
      RepeatLength(LI, |r.1|);
      InterleaveCons([], LI, r.0, Repeat(LI, |r.1|));
      assert [] + LI == LI;
    } else {
      var r := ItemCuts(s[1..]);
      ItemPassCuts(s[1..]);
      RepeatLength(LI, n);
      InterleaveExtendFirst([s[0]], r.0, Repeat(LI, n));
    }
  }

  /** A line break and then white space only, what `\n\s*` matches. */
  predicate GapMark(g: string) {
    |g| > 0 && g[0] == '\n' && IsBlank(g[1..])
  }

  /** No line break followed by white space and `<li>` starts anywhere in `c`. */
  predicate NoGapIn(c: string) {
    forall k :: 0 <= k < |c| ==> GapBeforeItem(c[k..]).None?
  }

  /** No line break in `c` is followed by white space only, up to the end of `c`. */
  predicate NoTrailingBreak(c: string) {
    forall k :: 0 <= k < |c| && c[k] == '\n' ==> !IsBlank(c[k + 1..])
  }

  /**
   * `s` cut at each line break whose white-space run is followed by `<li>`,
   * left to right: the stretches between the gaps, and the gaps.
   */
  function CloseCuts(s: string): (r: (seq<string>, seq<string>))
    decreases |s|
    ensures |r.0| == |r.1| + 1
  {
    if s == [] then ([[]], [])
    else
      match GapBeforeItem(s)
      case Some(n) =>
        var r := CloseCuts(s[n..]);
        ([[]] + r.0, [s[..n]] + r.1)
      case None =>
        var r := CloseCuts(s[1..]);
        ([[s[0]] + r.0[0]] + r.0[1..], r.1)
  }

  /** A white-space run that ends inside `p` ends at the same place in any text `p` starts. */
  lemma LeadingWsPrefix(p: string, q: string)
    requires p <= q && LeadingWs(p) < |p|
    ensures LeadingWs(q) == LeadingWs(p)
  {
    var m := LeadingWs(p);
    assert q[..m] == p[..m] && q[m] == p[m];
    LeadingWsIs(q, m);
  }

  lemma GapPrefix(p: string, t: string)
    requires p <= t
    ensures GapBeforeItem(p).Some? ==> GapBeforeItem(t) == GapBeforeItem(p)
  {
    if GapBeforeItem(p).Some? {
      var n := 1 + LeadingWs(p[1..]);
      assert p[1..] <= t[1..] && t[0] == p[0];
      LeadingWsPrefix(p[1..], t[1..]);
      assert p[n..] <= t[n..];
    }
  }

  /** A character in front of a gap-free stretch, where no gap starts either, keeps it gap-free. */
  lemma NoGapInExtend(s: string, c: string)
    requires s != [] && GapBeforeItem(s).None? && NoGapIn(c) && c <= s[1..]
    ensures NoGapIn([s[0]] + c)
  {
    var x := [s[0]] + c;
    assert x <= s;
    GapPrefix(x, s);
    forall k | 1 <= k < |x|
      ensures GapBeforeItem(x[k..]).None?
    {
      assert x[k..] == c[k - 1..];
    }
    assert x[0..] == x;
  }

  /** A stretch without line breaks at the start of `t` stays at the start of its first piece. */
  lemma {:induction false} CloseCutsKeepHead(p: string, t: string)
    requires p <= t && '\n' !in p
    ensures p <= CloseCuts(t).0[0]
    decreases |p|
  {
    if p != [] {
      assert t[0] == p[0] && p[1..] <= t[1..];
      CloseCutsKeepHead(p[1..], t[1..]);
    }
  }

  /** The cuts put back together give `s`. */
  lemma {:induction false} CloseCutsRebuild(s: string)
    ensures Interleave(CloseCuts(s).0, CloseCuts(s).1) == s
    decreases |s|
  {
    if s != [] {
      match GapBeforeItem(s)
      case Some(n) =>
        var r := CloseCuts(s[n..]);
        CloseCutsRebuild(s[n..]);
        InterleaveCons([], s[..n], r.0, r.1);
        assert s == [] + s[..n] + s[n..];
      case None =>
        var r := CloseCuts(s[1..]);
        CloseCutsRebuild(s[1..]);
        InterleaveExtendFirst([s[0]], r.0, r.1);
        assert s == [s[0]] + s[1..];
    }
  }

  /** Every gap is a line break and white space, and `<li>` follows it: every stretch after the first starts with `<li>`. */
  lemma {:induction false} CloseCutsGaps(s: string)
    ensures forall g :: g in CloseCuts(s).1 ==> GapMark(g)
    ensures forall i :: 1 <= i < |CloseCuts(s).0| ==> LI <= CloseCuts(s).0[i]
    decreases |s|
  {
    if s != [] {
      match GapBeforeItem(s)
      case Some(n) =>
        var r := CloseCuts(s[n..]);
        CloseCutsGaps(s[n..]);
        var w := LeadingWs(s[1..]);
        assert s[..n][1..] == s[1..][..w];
        assert LI <= s[n..] && '\n' !in LI;
        CloseCutsKeepHead(LI, s[n..]);
        assert forall i :: 1 <= i < |r.0| + 1 ==> ([[]] + r.0)[i] == r.0[i - 1];
      case None =>
        var r := CloseCuts(s[1..]);
        CloseCutsGaps(s[1..]);
        assert forall i :: 1 <= i < |r.0| ==> ([[s[0]] + r.0[0]] + r.0[1..])[i] == r.0[i];
    }
  }

  /** No stretch holds a gap before `<li>`. */
  lemma {:induction false} CloseCutsClean(s: string)
    ensures forall c :: c in CloseCuts(s).0 ==> NoGapIn(c)
    decreases |s|
  {
    if s != [] {
      match GapBeforeItem(s)
      case Some(n) =>
        CloseCutsClean(s[n..]);
      case None =>
        var r := CloseCuts(s[1..]);
        CloseCutsClean(s[1..]);
        CloseCutsRebuild(s[1..]);
        InterleaveFirst(r.0, r.1);
        assert r.0[0] in r.0;
        NoGapInExtend(s, r.0[0]);
        assert forall c :: c in r.0[1..] ==> c in r.0;
    }
  }

  /** A line break whose white space runs into a gap before `<li>` starts a gap itself. */
  lemma GapAfterBlank(s: string, c: string, g: string, rest: string)
    requires s != [] && s[1..] == c + g + rest && GapMark(g) && LI <= rest
    ensures s[0] == '\n' && IsBlank(c) ==> GapBeforeItem(s).Some?
  {
    if s[0] == '\n' && IsBlank(c) {
      var a := c + g;
      assert forall k :: 0 <= k < |a| ==> IsWs(a[k]) by {
        forall k | 0 <= k < |a|
          ensures IsWs(a[k])
        {
          if k < |c| {
            assert a[k] == c[k];
          } else if k > |c| {
            assert a[k] == g[1..][k - |c| - 1];
          }
        }
      }
      assert (a + rest)[..|a|] == a && (a + rest)[|a|] == rest[0] == '<';
      assert s[1..] == a + rest;
      LeadingWsIs(s[1..], |a|);
      assert s[1 + |a|..] == rest;
    }
  }

  lemma NoTrailingBreakExtend(x: char, c: string)
    requires NoTrailingBreak(c) && (x == '\n' ==> !IsBlank(c))
    ensures NoTrailingBreak([x] + c)
  {
    var y := [x] + c;
    forall k | 0 <= k < |y| && y[k] == '\n'
      ensures !IsBlank(y[k + 1..])
    {
      assert y[k + 1..] == c[k..];
      assert k > 0 ==> y[k] == c[k - 1];
    }
  }

  /** Every stretch before a gap is free of a trailing line break: each gap starts at the first line break of its run. */
  lemma {:induction false} CloseCutsTrailing(s: string)
    ensures forall i :: 0 <= i < |CloseCuts(s).1| ==> NoTrailingBreak(CloseCuts(s).0[i])
    decreases |s|
  {
    if s != [] {
      match GapBeforeItem(s)
      case Some(n) =>
        var r := CloseCuts(s[n..]);
        CloseCutsTrailing(s[n..]);
        assert forall i :: 1 <= i < |r.0| + 1 ==> ([[]] + r.0)[i] == r.0[i - 1];
      case None =>
        var r := CloseCuts(s[1..]);
        CloseCutsTrailing(s[1..]);
        assert forall i :: 1 <= i < |r.0| ==> ([[s[0]] + r.0[0]] + r.0[1..])[i] == r.0[i];
        if r.1 != [] {
          var rest := Interleave(r.0[1..], r.1[1..]);
          CloseCutsRebuild(s[1..]);
          assert s[1..] == r.0[0] + r.1[0] + rest;
          CloseCutsGaps(s[1..]);
          assert r.1[0] in r.1;
          InterleaveFirst(r.0[1..], r.1[1..]);
          assert LI <= r.0[1..][0];
          GapAfterBlank(s, r.0[0], r.1[0], rest);
          NoTrailingBreakExtend(s[0], r.0[0]);
        }
    }
  }

  /** The closing pass replaces exactly the gaps `CloseCuts` finds by `</li>` and a line break, one for one, and keeps the stretches. */
  lemma {:induction false} ClosePassCuts(s: string)
    ensures GlobalReplace(s, CLOSE_ITEM) == Interleave(CloseCuts(s).0, Repeat("</li>\n", |CloseCuts(s).1|))
    decreases |s|
  {
    var n := |CloseCuts(s).1|;
    if s != [] {
      match GapBeforeItem(s)
      case Some(w) =>
        var r := CloseCuts(s[w..]);
        ClosePassCuts(s[w..]);
        assert Repeat("</li>\n", n) == ["</li>\n"] + Repeat("</li>\n", |r.1|);
        RepeatLength("</li>\n", |r.1|);
        InterleaveCons([], "</li>\n", r.0, Repeat("</li>\n", |r.1|));
        assert [] + "</li>\n" == "</li>\n";
      case None =>
        var r := CloseCuts(s[1..]);
        ClosePassCuts(s[1..]);
        RepeatLength("</li>\n", n);
        InterleaveExtendFirst([s[0]], r.0, Repeat("</li>\n", n));
    }
  }

  /**
   * The rewritten body of any list: the item pass puts `<li>` at each of its
   * marks, then the closing pass puts `</li>` and a line break at each of its
   * gaps in that text.
   */
  lemma ListItemsCuts(items: string, tagged: string)
    requires tagged == Interleave(ItemCuts(items).0, Repeat(LI, |ItemCuts(items).1|))
    ensures ListItems(items) == Interleave(CloseCuts(tagged).0, Repeat("</li>\n", |CloseCuts(tagged).1|))
  {
    ItemPassCuts(items);
    ClosePassCuts(tagged);
  }
}
