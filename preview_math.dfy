/**
 * Properties of the math stage: display math `$$..$$` first, then inline math
 * `$..$`, each span handed to the renderer, a failing span replaced by an
 * error marker that quotes the formula.
 */
module PreviewMath {
  import opened Wrappers
  import opened Text
  import opened Rewrite
  import opened LatexPreview

  /** The formula has something in it and no dollar sign, as `[^$]+` demands. */
  predicate Formula(m: string) {
    |m| > 0 && '$' !in m
  }

  lemma DisplayLeadsWithDollar(render: Renderer)
    ensures LeadsWith(DisplayRule(render), '$')
  {
    forall x | Fires(DisplayRule(render), x)
      ensures x[0] == '$'
    {
      assert "$$" <= x;
    }
  }

  lemma InlineLeadsWithDollar(render: Renderer)
    ensures LeadsWith(InlineRule(render), '$')
  {
  }

  /** `$$m$$` is replaced by the rendered display formula and the scan goes on after it. */
  lemma DisplayReplaced(m: string, rest: string, render: Renderer)
    requires Formula(m)
    ensures GlobalReplace("$$" + m + "$$" + rest, DisplayRule(render))
         == RenderOrError(render, m, true) + GlobalReplace(rest, DisplayRule(render))
  {
    var p := "$$" + m + "$$";
    var x := p + rest;
    assert x[2 + |m|] == '$' && x[3 + |m|] == '$';
    assert forall k :: 2 <= k < 2 + |m| ==> x[k] == m[k - 2];
    assert IndexOfChar(x, '$', 2) == Some(2 + |m|);
    assert x[2..2 + |m|] == m;
    assert "$$" <= x;
    ReplacesLeadingMatch(p, rest, DisplayRule(render), RenderOrError(render, m, true));
  }

  /** `$m$` is replaced by the rendered inline formula and the scan goes on after it. */
  lemma InlineReplaced(m: string, rest: string, render: Renderer)
    requires Formula(m)
    ensures GlobalReplace("$" + m + "$" + rest, InlineRule(render))
         == RenderOrError(render, m, false) + GlobalReplace(rest, InlineRule(render))
  {
    var p := "$" + m + "$";
    var x := p + rest;
    assert x[1 + |m|] == '$';
    assert forall k :: 1 <= k < 1 + |m| ==> x[k] == m[k - 1];
    assert IndexOfChar(x, '$', 1) == Some(1 + |m|);
    assert x[1..1 + |m|] == m;
    ReplacesLeadingMatch(p, rest, InlineRule(render), RenderOrError(render, m, false));
  }

  /** Text without a dollar sign goes through the math stage unchanged. */
  lemma TextWithoutDollarUnchanged(u: string, render: Renderer)
    requires '$' !in u
    ensures Math(u, render) == u
  {
    DisplayLeadsWithDollar(render);
    InlineLeadsWithDollar(render);
    assert u + [] == u;
    CopiesTextWithoutLead(u, [], DisplayRule(render), '$');
    CopiesTextWithoutLead(u, [], InlineRule(render), '$');
    assert GlobalReplace([], DisplayRule(render)) == [] && GlobalReplace([], InlineRule(render)) == [];
  }

  /** What a formula turns into contains no dollar sign when the renderer's output has none. */
  lemma RenderedWithoutDollar(render: Renderer, m: string, display: bool)
    requires Formula(m)
    requires render(m, display).Some? ==> '$' !in render(m, display).value
    ensures '$' !in RenderOrError(render, m, display)
  {
  }

  /**
   * A display formula is rendered once, in display mode, and the inline pass
   * does not take its delimiters for an inline formula.
   */
  lemma DisplayMathRendered(m: string, render: Renderer)
    requires Formula(m)
    requires render(m, true).Some? ==> '$' !in render(m, true).value
    ensures Math("$$" + m + "$$", render) == RenderOrError(render, m, true)
  {
    var out := RenderOrError(render, m, true);
    DisplayReplaced(m, [], render);
    assert "$$" + m + "$$" + [] == "$$" + m + "$$";
    assert GlobalReplace([], DisplayRule(render)) == [];
    assert out + [] == out;
    RenderedWithoutDollar(render, m, true);
    InlineLeadsWithDollar(render);
    CopiesTextWithoutLead(out, [], InlineRule(render), '$');
    assert GlobalReplace([], InlineRule(render)) == [];
  }

  /** The display pass leaves a single-dollar formula alone. */
  lemma DisplaySkipsInline(m: string, render: Renderer)
    requires Formula(m)
    ensures GlobalReplace("$" + m + "$", DisplayRule(render)) == "$" + m + "$"
  {
    DisplayLeadsWithDollar(render);
    var x := "$" + m + "$";
    assert x == "$" + (m + "$");
    assert x[1] == m[0];
    assert !Fires(DisplayRule(render), x);
    assert Quiet(DisplayRule(render), x, 1);
    CopiesQuietPrefix("$", m + "$", DisplayRule(render));
    CopiesTextWithoutLead(m, "$", DisplayRule(render), '$');
    assert "$"[1..] == [];
    assert !Fires(DisplayRule(render), "$");
    assert GlobalReplace([], DisplayRule(render)) == [];
    assert GlobalReplace("$", DisplayRule(render)) == "$";
  }

  /**
   * An inline formula is rendered in inline mode; when the renderer throws it
   * becomes the error marker quoting the formula.
   */
  lemma InlineMathRendered(m: string, render: Renderer)
    requires Formula(m)
    ensures Math("$" + m + "$", render) == RenderOrError(render, m, false)
    ensures render(m, false).None? ==>
      Math("$" + m + "$", render) == "<span class=\"math-error\">[Math Error: " + m + "]</span>"
  {
    DisplaySkipsInline(m, render);
    InlineReplaced(m, [], render);
    assert "$" + m + "$" + [] == "$" + m + "$";
    assert GlobalReplace([], InlineRule(render)) == [];
    assert RenderOrError(render, m, false) + [] == RenderOrError(render, m, false);
  }
}
