/** What the result renderer makes of each kind of line: headings, list
    items, the horizontal rule, and every other line. */
module MarkdownLines {
  import opened Markdown

  /** Every tag opens with `<`. */
  lemma TagsOpenWithBracket()
    ensures H3Open[0] == '<' && H2Open[0] == '<' && H1Open[0] == '<'
    ensures ItemOpen[0] == '<' && SubItemOpen[0] == '<' && HrTag[0] == '<' && StrongOpen[0] == '<'
  {
  }

  lemma ConcatAssoc(a: string, b: string, c: string)
    ensures a + (b + c) == a + b + c
  {
  }

  lemma TaggedPrefix(open: Markup, rest: string)
    requires |open| > 0
    ensures |open + rest| > 0 && (open + rest)[0] == open[0]
  {
  }

  /** Text starting with another character does not start with `q`. */
  lemma FirstCharMismatch(t: string, q: string)
    requires |t| > 0 && |q| > 0 && t[0] != q[0]
    ensures !StartsWith(t, q)
  {
    if |q| <= |t| {
      assert t[..|q|][0] == t[0];
    }
  }

  /** Text whose `j`th character differs from the marker's does not start
      with the marker. */
  lemma Mismatch(p: string, x: string, q: string, j: nat)
    requires j < |p| && j < |q| && p[j] != q[j]
    ensures !StartsWith(p + x, q)
  {
    if |q| <= |p + x| {
      assert (p + x)[..|q|][j] == p[j];
    }
  }

  lemma WrapApplies(marker: string, x: string, open: Markup, close: Markup)
    ensures Wrap(marker + x, marker, open, close) == open + x + close
  {
    assert (marker + x)[..|marker|] == marker;
    assert (marker + x)[|marker|..] == x;
  }

  lemma StarFreeHasNoPair(s: string, from: nat)
    requires StarFree(s)
    ensures FindPair(s, from).None?
  {
  }

  /** The heading rules leave a line alone unless it starts with `#`. */
  lemma HeadingsSkip(line: string)
    requires |line| == 0 || line[0] != '#'
    ensures Wrap(line, "### ", H3Open, H3Close) == line
    ensures Wrap(line, "## ", H2Open, H2Close) == line
    ensures Wrap(line, "# ", H1Open, H1Close) == line
  {
    if |line| > 0 {
      FirstCharMismatch(line, "### ");
      FirstCharMismatch(line, "## ");
      FirstCharMismatch(line, "# ");
    }
  }

  /** The rule and list rules leave a line alone unless it starts with `-`
      or a space. */
  lemma ListRulesSkip(e: string)
    requires |e| == 0 || (e[0] != '-' && e[0] != ' ')
    ensures HorizontalRuleOf(e) == e
    ensures Wrap(e, "- ", ItemOpen, ItemClose) == e
    ensures Wrap(e, "  - ", SubItemOpen, ItemClose) == e
  {
    if |e| > 0 {
      FirstCharMismatch(e, "---");
      FirstCharMismatch(e, "- ");
      FirstCharMismatch(e, "  - ");
    }
  }

  /** A tag, then anything, then a tag: the strong rewrite touches only
      the middle. */
  lemma EmphasizeBetweenTags(open: Markup, x: string, close: Markup)
    ensures Emphasize(open + x + close) == open + Emphasize(x) + close
  {
    MarkupIsLine(open);
    MarkupIsLine(close);
    EmphasizeAfterStarFree(open, x + close);
    EmphasizeBeforeStarFree(x, close);
    ConcatAssoc(open, x, close);
    ConcatAssoc(open, Emphasize(x), close);
  }

  /** Once a line is wrapped in tags, the later rules only render the
      strong spans inside. */
  lemma TaggedLineRest(open: Markup, m: string, close: Markup)
    requires |open| > 0 && open[0] == '<'
    ensures Wrap(Wrap(HorizontalRuleOf(Emphasize(open + m + close)), "- ", ItemOpen, ItemClose),
                 "  - ", SubItemOpen, ItemClose)
         == open + Emphasize(m) + close
  {
    EmphasizeBetweenTags(open, m, close);
    TaggedPrefix(open, Emphasize(m) + close);
    ConcatAssoc(open, Emphasize(m), close);
    ListRulesSkip(open + Emphasize(m) + close);
  }

  /** `### text` becomes a level-three heading around the text, whose
      strong spans are rendered; no other rule applies. */
  lemma Heading3Line(x: string)
    ensures RenderLine("### " + x) == H3Open + Emphasize(x) + H3Close
  {
    WrapApplies("### ", x, H3Open, H3Close);
    TagsOpenWithBracket();
    TaggedPrefix(H3Open, x + H3Close);
    ConcatAssoc(H3Open, x, H3Close);
    HeadingsSkip(H3Open + x + H3Close);
    TaggedLineRest(H3Open, x, H3Close);
  }

  /** `## text` becomes a level-two heading; the level-three rule does not
      take it. */
  lemma Heading2Line(x: string)
    ensures RenderLine("## " + x) == H2Open + Emphasize(x) + H2Close
  {
    Mismatch("## ", x, "### ", 2);
    WrapApplies("## ", x, H2Open, H2Close);
    TagsOpenWithBracket();
    TaggedPrefix(H2Open, x + H2Close);
    ConcatAssoc(H2Open, x, H2Close);
    HeadingsSkip(H2Open + x + H2Close);
    TaggedLineRest(H2Open, x, H2Close);
  }

  /** `# text` becomes a level-one heading; neither deeper rule takes it. */
  lemma Heading1Line(x: string)
    ensures RenderLine("# " + x) == H1Open + Emphasize(x) + H1Close
  {
    Mismatch("# ", x, "### ", 1);
    Mismatch("# ", x, "## ", 1);
    WrapApplies("# ", x, H1Open, H1Close);
    TagsOpenWithBracket();
    TaggedLineRest(H1Open, x, H1Close);
  }

  /** `- text` becomes a list item around the rendered text. */
  lemma ItemLine(x: string)
    ensures RenderLine("- " + x) == ItemOpen + Emphasize(x) + ItemClose
  {
    HeadingsSkip("- " + x);
    EmphasizeAfterStarFree("- ", x);
    var e := Emphasize(x);
    Mismatch("- ", e, "---", 1);
    WrapApplies("- ", e, ItemOpen, ItemClose);
    TagsOpenWithBracket();
    TaggedPrefix(ItemOpen, e + ItemClose);
    ConcatAssoc(ItemOpen, e, ItemClose);
    FirstCharMismatch(ItemOpen + e + ItemClose, "  - ");
  }

  /** `  - text` (two spaces first) becomes a nested list item. */
  lemma SubItemLine(x: string)
    ensures RenderLine("  - " + x) == SubItemOpen + Emphasize(x) + ItemClose
  {
    HeadingsSkip("  - " + x);
    EmphasizeAfterStarFree("  - ", x);
    var e := Emphasize(x);
    Mismatch("  - ", e, "---", 0);
    Mismatch("  - ", e, "- ", 0);
    WrapApplies("  - ", e, SubItemOpen, ItemClose);
  }

  /** A line that is exactly `---` becomes a horizontal rule. */
  lemma RuleLine()
    ensures RenderLine("---") == HrTag
  {
    HeadingsSkip("---");
    StarFreeHasNoPair("---", 0);
    EmphasizeNoPair("---");
    TagsOpenWithBracket();
    FirstCharMismatch(HrTag, "- ");
    FirstCharMismatch(HrTag, "  - ");
  }

  lemma StrongSpanAssoc(before: string, inner: string, after: string)
    ensures StrongSpan(before, inner, after) == before + (StrongOpen + (inner + StrongClose + after))
  {
    ConcatShift([], before, StrongOpen, inner, StrongClose, after);
  }

  /** A strong span keeps the text before it and puts a `<` right after. */
  lemma SpanAt(before: string, inner: string, after: string)
    ensures |StrongSpan(before, inner, after)| > |before|
    ensures StrongSpan(before, inner, after)[..|before|] == before
    ensures StrongSpan(before, inner, after)[|before|] == '<'
  {
    TagsOpenWithBracket();
    StrongSpanAssoc(before, inner, after);
  }

  /** `p` holds no `<`. */
  predicate BracketFree(p: string)
  {
    forall j :: 0 <= j < |p| ==> p[j] != '<'
  }

  /** The strong rewrite only adds text that starts with `<`: a prefix
      without `<` of the rewritten line is a prefix of the line, and a
      rewritten line without `<` is the line itself. */
  lemma EmphasizePlainPrefix(line: string, p: string)
    requires BracketFree(p)
    ensures StartsWith(Emphasize(line), p) ==> StartsWith(line, p)
    ensures Emphasize(line) == p ==> line == p
  {
    match FindPair(line, 0)
    case None => EmphasizeNoPair(line);
    case Some(i) =>
      match FindPair(line, i + 2)
      case None => EmphasizeUnclosed(line, i);
      case Some(k) =>
        EmphasizeStep(line, i, k);
        var before := line[..i];
        SpanAt(before, line[i + 2..k], Emphasize(line[k + 2..]));
        var e := Emphasize(line);
        if StartsWith(e, p) {
          assert |p| <= i;
          assert p == e[..|before|][..|p|];
          assert line[..|p|] == before[..|p|];
        }
  }

  /** A line that none of the heading, rule and list rules takes. */
  predicate PlainLine(line: string)
  {
    && !StartsWith(line, "### ") && !StartsWith(line, "## ") && !StartsWith(line, "# ")
    && line != "---" && !StartsWith(line, "- ") && !StartsWith(line, "  - ")
  }

  /** Any other line, the empty one included, only has its strong spans
      rendered: the strong rewrite never makes a line that a later rule
      takes. */
  lemma ParagraphLine(line: string)
    requires PlainLine(line)
    ensures RenderLine(line) == Emphasize(line)
  {
    EmphasizePlainPrefix(line, "---");
    EmphasizePlainPrefix(line, "- ");
    EmphasizePlainPrefix(line, "  - ");
  }
}
