/** The result renderer (`parseMarkdown`): a fixed sequence of regular
    expression rewrites that turns a small markdown subset into inline
    HTML. Apart from the fence strip, every rewrite is anchored to a line
    (`^…$` with the `m` flag) or cannot cross a line terminator (`.`), so
    each is modelled as a function on one line applied to every line of
    the text; the line terminators are those of JavaScript regular
    expressions (LF, CR, U+2028, U+2029). The last rewrite turns every LF
    into a `<br />` tag. */
module Markdown {
  import opened Wrappers

  predicate IsLineTerminator(c: char)
  {
    c == '\n' || c == '\r' || c == '\U{2028}' || c == '\U{2029}'
  }

  /** `s` holds no line terminator: it lies within one line. */
  predicate IsLine(s: string)
  {
    forall i :: 0 <= i < |s| ==> !IsLineTerminator(s[i])
  }

  predicate StartsWith(s: string, p: string)
  {
    |p| <= |s| && s[..|p|] == p
  }

  predicate EndsWith(s: string, p: string)
  {
    |p| <= |s| && s[|s| - |p|..] == p
  }

  const OpeningFence: string := "```markdown\n"
  const ClosingFence: string := "```"

  /** The characters the inserted markup is written in: printable ASCII
      other than the asterisk. No line terminator is among them. */
  type MarkupChar = c: char | ' ' <= c <= '~' && c != '*' witness 'a'

  type Markup = seq<MarkupChar>

  /** CSS declarations separated by single spaces. */
  function Declarations(decls: seq<Markup>): Markup
  {
    if |decls| == 0 then ""
    else if |decls| == 1 then decls[0]
    else decls[0] + " " + Declarations(decls[1..])
  }

  /** `<name style="decl decl …">`. */
  function OpenTag(name: Markup, decls: seq<Markup>): (tag: Markup)
    ensures |tag| > 0 && tag[0] == '<' && tag[|tag| - 1] == '>'
  {
    "<" + name + " style=\"" + Declarations(decls) + "\">"
  }

  function CloseTag(name: Markup): Markup
  {
    "</" + name + ">"
  }

  const AccentColor: Markup := "color: #1fc7d4;"
  const AccentRule: Markup := "1px solid #1fc7d4;"
  const HalfBottomMargin: Markup := "margin-bottom: 0.5rem;"

  const H3Open: Markup :=
    OpenTag("h3", [AccentColor, "margin-top: 1.5rem;", HalfBottomMargin, "font-size: 1.1rem;"])
  const H3Close: Markup := CloseTag("h3")
  const H2Open: Markup :=
    OpenTag("h2", [AccentColor, "margin-top: 2rem;", "margin-bottom: 1rem;", "font-size: 1.3rem;",
                   "border-bottom: " + AccentRule, "padding-bottom: 0.5rem;"])
  const H2Close: Markup := CloseTag("h2")
  const H1Open: Markup :=
    OpenTag("h1", [AccentColor, "margin-top: 2rem;", "margin-bottom: 1rem;", "font-size: 1.5rem;"])
  const H1Close: Markup := CloseTag("h1")
  const StrongOpen: Markup := OpenTag("strong", ["color: #fff;"])
  const StrongClose: Markup := CloseTag("strong")
  const HrTag: Markup :=
    OpenTag("hr", ["border: none;", "border-top: " + AccentRule, "margin: 1.5rem 0;", "opacity: 0.3;"])
  const ItemOpen: Markup := OpenTag("li", ["margin-left: 1.5rem;", HalfBottomMargin])
  const SubItemOpen: Markup :=
    OpenTag("li", ["margin-left: 2.5rem;", HalfBottomMargin, "list-style-type: circle;"])
  const ItemClose: Markup := CloseTag("li")
  const LineBreak: Markup := "<br />"

  /** The fence strip: a leading "```markdown" line is dropped (`^` without
      the `m` flag anchors at the start of the text only), then a trailing
      "```" (`$` without `m` anchors at the very end). */
  function StripFences(text: string): (r: string)
    ensures var lead := if StartsWith(text, OpeningFence) then |OpeningFence| else 0;
      && lead + |r| <= |text|
      && text[lead..lead + |r|] == r
      && (lead + |r| == |text| || text[lead + |r|..] == ClosingFence)
      && (lead + |r| < |text| <==> EndsWith(text[lead..], ClosingFence))
  {
    var headless := if StartsWith(text, OpeningFence) then text[|OpeningFence|..] else text;
    var closed := if EndsWith(headless, ClosingFence) then headless[..|headless| - |ClosingFence|] else headless;
    closed
  }

  /** The rewrites, in the order the page applies them. */
  datatype Rule = Heading3 | Heading2 | Heading1 | Strong | HorizontalRule | Item | SubItem

  const Rules: seq<Rule> := [Heading3, Heading2, Heading1, Strong, HorizontalRule, Item, SubItem]

  /** `/^marker(.*$)/gim` on one line: a line that starts with `marker`
      becomes `open`, the rest of the line, `close`. */
  function Wrap(line: string, marker: string, open: string, close: string): string
  {
    if StartsWith(line, marker) then open + line[|marker|..] + close else line
  }

  /** `s` holds no asterisk. */
  predicate StarFree(s: string)
  {
    forall i :: 0 <= i < |s| ==> s[i] != '*'
  }

  /** Two asterisks at index `j`. */
  predicate PairAt(s: string, j: int)
  {
    0 <= j && j + 2 <= |s| && s[j] == '*' && s[j + 1] == '*'
  }

  /** The first index at or after `from` where two asterisks stand. */
  function FindPair(s: string, from: nat): (r: Option<nat>)
    ensures r.Some? ==> from <= r.value && PairAt(s, r.value)
    decreases |s| - from
  {
    if from + 2 > |s| then None
    else if s[from] == '*' && s[from + 1] == '*' then Some(from)
    else FindPair(s, from + 1)
  }

  /** No pair stands between `from` and the one FindPair reports. */
  lemma {:induction false} FindPairIsFirst(s: string, from: nat, j: int)
    requires from <= j && PairAt(s, j)
    ensures FindPair(s, from).Some? && FindPair(s, from).value <= j
    decreases |s| - from
  {
    if from + 2 <= |s| && !(s[from] == '*' && s[from + 1] == '*') {
      FindPairIsFirst(s, from + 1, j);
    }
  }

  // The global strong rewrite (two escaped asterisks, a lazy group, two
  // escaped asterisks) on one line: the leftmost "**", then the nearest
  // "**" after it (the lazy group may be empty), become a strong element;
  // the search resumes after the closing pair. When the leftmost "**" has
  // no partner, no later one has either.
  function Emphasize(line: string): string
    decreases |line|
  {
    match FindPair(line, 0)
    case None => line
    case Some(i) =>
      match FindPair(line, i + 2)
      case None => line
      case Some(k) => StrongSpan(line[..i], line[i + 2..k], Emphasize(line[k + 2..]))
  }

  /** The text before a match, the strong element the match becomes, and
      the rewritten rest of the line. */
  function StrongSpan(before: string, inner: string, after: string): string
  {
    before + StrongOpen + inner + StrongClose + after
  }

  /** `/^---$/gim` on one line. */
  function HorizontalRuleOf(line: string): string
  {
    if line == "---" then HrTag else line
  }

  /** One rewrite applied to one line. */
  function Rewrite(rule: Rule, line: string): string
  {
    match rule
    case Heading3 => Wrap(line, "### ", H3Open, H3Close)
    case Heading2 => Wrap(line, "## ", H2Open, H2Close)
    case Heading1 => Wrap(line, "# ", H1Open, H1Close)
    case Strong => Emphasize(line)
    case HorizontalRule => HorizontalRuleOf(line)
    case Item => Wrap(line, "- ", ItemOpen, ItemClose)
    case SubItem => Wrap(line, "  - ", SubItemOpen, ItemClose)
  }

  /** The length of the first line of `s`: the index of its first line
      terminator, or `|s|` when it has none. */
  function LineEnd(s: string): (n: nat)
    ensures n <= |s| && IsLine(s[..n])
    ensures n < |s| ==> IsLineTerminator(s[n])
    decreases |s|
  {
    if |s| == 0 || IsLineTerminator(s[0]) then 0
    else
      var m := LineEnd(s[1..]);
      assert s[..m + 1] == [s[0]] + s[1..][..m];
      1 + m
  }

  /** `text.replace(regex, template)` for one rule over the whole text:
      the rule applied to every line, the terminators kept. */
  function Pass(rule: Rule, s: string): string
    decreases |s|
  {
    var n := LineEnd(s);
    if n == |s| then Rewrite(rule, s)
    else Rewrite(rule, s[..n]) + [s[n]] + Pass(rule, s[n + 1..])
  }

  /** The rules applied one after another, each to the whole text. */
  function Passes(rules: seq<Rule>, s: string): string
    decreases |rules|
  {
    if |rules| == 0 then s else Passes(rules[1..], Pass(rules[0], s))
  }

  /** `text.replace(/\n/g, '<br />')`. */
  function BreakLines(s: string): (r: string)
    ensures forall i :: 0 <= i < |r| ==> r[i] != '\n'
    decreases |s|
  {
    if |s| == 0 then ""
    else (if s[0] == '\n' then LineBreak else [s[0]]) + BreakLines(s[1..])
  }

  /** `parseMarkdown(text)`. An absent or empty text renders as nothing;
      otherwise the rendered HTML holds no line feed, every one having
      become a `<br />`. */
  function ParseMarkdown(text: Option<string>): (html: string)
    ensures text.None? || text.value == "" ==> html == ""
    ensures forall i :: 0 <= i < |html| ==> html[i] != '\n'
  {
    if text.None? || text.value == "" then ""
    else BreakLines(Passes(Rules, StripFences(text.value)))
  }

  // ---------------------------------------------------------------------
  // The line-wise reading.

  /** One line put through every rule in order. */
  function RewriteLine(rules: seq<Rule>, line: string): string
    decreases |rules|
  {
    if |rules| == 0 then line else RewriteLine(rules[1..], Rewrite(rules[0], line))
  }

  /** What the page makes of one line of the result text: the seven
      rewrites in the page's order. */
  function RenderLine(line: string): string
  {
    var h3 := Wrap(line, "### ", H3Open, H3Close);
    var h2 := Wrap(h3, "## ", H2Open, H2Close);
    var h1 := Wrap(h2, "# ", H1Open, H1Close);
    var strong := Emphasize(h1);
    var rule := HorizontalRuleOf(strong);
    var item := Wrap(rule, "- ", ItemOpen, ItemClose);
    Wrap(item, "  - ", SubItemOpen, ItemClose)
  }

  /** All rules applied line by line in a single sweep, terminators kept. */
  function LineWise(rules: seq<Rule>, s: string): string
    decreases |s|
  {
    var n := LineEnd(s);
    if n == |s| then RewriteLine(rules, s)
    else RewriteLine(rules, s[..n]) + [s[n]] + LineWise(rules, s[n + 1..])
  }

  /** The lines of `s`: the text between line terminators. */
  function Lines(s: string): (lines: seq<string>)
    ensures |lines| >= 1
    decreases |s|
  {
    var n := LineEnd(s);
    if n == |s| then [s] else [s[..n]] + Lines(s[n + 1..])
  }

  /** Every line put through the rules. */
  function RewriteLines(rules: seq<Rule>, lines: seq<string>): (out: seq<string>)
    ensures |out| == |lines|
    decreases |lines|
  {
    if |lines| == 0 then [] else [RewriteLine(rules, lines[0])] + RewriteLines(rules, lines[1..])
  }

  /** Lines joined with `<br />` between neighbours. */
  function JoinBreaks(lines: seq<string>): string
    requires |lines| >= 1
    decreases |lines|
  {
    if |lines| == 1 then lines[0] else lines[0] + LineBreak + JoinBreaks(lines[1..])
  }

  /** The only line terminator `s` contains is the line feed. */
  predicate OnlyLineFeeds(s: string)
  {
    forall i :: 0 <= i < |s| && IsLineTerminator(s[i]) ==> s[i] == '\n'
  }

  /** Markup never holds a line terminator or an asterisk. */
  lemma MarkupIsLine(m: Markup)
    ensures IsLine(m)
    ensures StarFree(m)
  {
  }

  lemma LineConcat(a: string, b: string)
    requires IsLine(a) && IsLine(b)
    ensures IsLine(a + b)
  {
    forall i | 0 <= i < |a + b|
      ensures !IsLineTerminator((a + b)[i])
    {
      if i >= |a| {
        assert (a + b)[i] == b[i - |a|];
      }
    }
  }

  /** LineEnd finds exactly the first terminator. */
  lemma {:induction false} LineEndIs(s: string, n: nat)
    requires n <= |s| && IsLine(s[..n])
    requires n == |s| || IsLineTerminator(s[n])
    ensures LineEnd(s) == n
    decreases n
  {
    if n > 0 {
      assert s[..n][0] == s[0];
      assert s[1..][..n - 1] == s[..n][1..];
      LineEndIs(s[1..], n - 1);
    }
  }

  lemma LineEndAfterLine(a: string, t: char, rest: string)
    requires IsLine(a) && IsLineTerminator(t)
    ensures LineEnd(a + [t] + rest) == |a|
  {
    var s := a + [t] + rest;
    assert s[..|a|] == a;
    LineEndIs(s, |a|);
  }

  lemma LineEndOfLine(a: string)
    requires IsLine(a)
    ensures LineEnd(a) == |a|
  {
    assert a[..|a|] == a;
    LineEndIs(a, |a|);
  }

  /** Two asterisks in `a + b`, where `a` has none, stand wholly in `b`. */
  lemma PairAtAfterStarFree(a: string, b: string, j: int)
    requires StarFree(a)
    ensures PairAt(a + b, j) <==> j >= |a| && PairAt(b, j - |a|)
  {
    if 0 <= j < |a| {
      assert (a + b)[j] == a[j];
    }
    if j >= |a| && j + 2 <= |a + b| {
      assert (a + b)[j] == b[j - |a|] && (a + b)[j + 1] == b[j - |a| + 1];
    }
  }

  /** Two asterisks in `b + c`, where `c` has none, stand wholly in `b`. */
  lemma PairAtBeforeStarFree(b: string, c: string, j: int)
    requires StarFree(c)
    ensures PairAt(b + c, j) <==> PairAt(b, j)
  {
    if 0 <= j && j + 2 <= |b + c| && j + 1 >= |b| {
      assert (b + c)[j + 1] == c[j + 1 - |b|];
    }
    if 0 <= j && j + 2 <= |b| {
      assert (b + c)[j] == b[j] && (b + c)[j + 1] == b[j + 1];
    }
  }

  /** Searching `a + b` from `at == |a| + from`, where `a` has no asterisk,
      is searching `b` from `from`. */
  lemma FindPairAfterStarFree(a: string, b: string, from: nat, at: nat)
    requires StarFree(a)
    requires at == |a| + from
    ensures FindPair(a + b, at) == (if FindPair(b, from).Some? then Some(|a| + FindPair(b, from).value) else None)
  {
    var r1 := FindPair(a + b, at);
    var r2 := FindPair(b, from);
    if r2.Some? {
      PairAtAfterStarFree(a, b, |a| + r2.value);
      FindPairIsFirst(a + b, at, |a| + r2.value);
    }
    if r1.Some? {
      PairAtAfterStarFree(a, b, r1.value);
      FindPairIsFirst(b, from, r1.value - |a|);
    }
  }

  lemma FindPairSkipsStarFree(a: string, b: string)
    requires StarFree(a)
    ensures FindPair(a + b, 0) == FindPair(a + b, |a|)
  {
    var r0 := FindPair(a + b, 0);
    var r1 := FindPair(a + b, |a|);
    if r0.Some? {
      PairAtAfterStarFree(a, b, r0.value);
      FindPairIsFirst(a + b, |a|, r0.value);
    }
    if r1.Some? {
      FindPairIsFirst(a + b, 0, r1.value);
      PairAtAfterStarFree(a, b, r0.value);
    }
  }

  lemma FindPairBeforeStarFree(b: string, c: string, from: nat)
    requires StarFree(c)
    ensures FindPair(b + c, from) == FindPair(b, from)
  {
    var r1 := FindPair(b + c, from);
    var r2 := FindPair(b, from);
    if r1.Some? {
      PairAtBeforeStarFree(b, c, r1.value);
      FindPairIsFirst(b, from, r1.value);
    }
    if r2.Some? {
      PairAtBeforeStarFree(b, c, r2.value);
      FindPairIsFirst(b + c, from, r2.value);
    }
  }

  lemma SliceAfter(a: string, b: string, x: nat, y: nat)
    requires x <= y <= |b|
    ensures (a + b)[|a| + x..|a| + y] == b[x..y]
  {
    assert forall j :: 0 <= j < y - x ==> (a + b)[|a| + x..|a| + y][j] == b[x..y][j];
  }

  /** A strong span of `b` seen inside `s == a + b`, where it starts at
      `i2 == |a| + i` and ends at `k2 == |a| + k`. */
  lemma SpanAfter(a: string, b: string, s: string, i: nat, k: nat, i2: nat, k2: nat, x: string, y: string)
    requires s == a + b && i2 == |a| + i && k2 == |a| + k
    requires i + 2 <= k && k + 2 <= |b|
    requires x == StrongSpan(s[..i2], s[i2 + 2..k2], Emphasize(s[k2 + 2..]))
    requires y == StrongSpan(b[..i], b[i + 2..k], Emphasize(b[k + 2..]))
    ensures x == a + y
  {
    SlicesAfter(a, b, s, i, k, i2, k2);
    SpanShift(a, b[..i], b[i + 2..k], Emphasize(b[k + 2..]));
  }

  lemma SlicesAfter(a: string, b: string, s: string, i: nat, k: nat, i2: nat, k2: nat)
    requires s == a + b && i2 == |a| + i && k2 == |a| + k
    requires i + 2 <= k && k + 2 <= |b|
    ensures s[..i2] == a + b[..i]
    ensures s[i2 + 2..k2] == b[i + 2..k]
    ensures s[k2 + 2..] == b[k + 2..]
  {
    assert s[..i2] == a + b[..i];
    SliceAfter(a, b, i + 2, k);
    assert s[k2 + 2..] == b[k + 2..];
  }

  lemma SpanShift(a: string, before: string, inner: string, after: string)
    ensures StrongSpan(a + before, inner, after) == a + StrongSpan(before, inner, after)
  {
    ConcatShift(a, before, StrongOpen, inner, StrongClose, after);
  }

  lemma ConcatShift(a: string, p: string, o: string, m: string, c: string, e: string)
    ensures (a + p) + o + m + c + e == a + (p + o + m + c + e)
  {
  }

  lemma EmphasizeStep(s: string, i: nat, k: nat)
    requires FindPair(s, 0) == Some(i) && FindPair(s, i + 2) == Some(k)
    ensures Emphasize(s) == StrongSpan(s[..i], s[i + 2..k], Emphasize(s[k + 2..]))
  {
  }

  lemma EmphasizeAfterStarFree(a: string, b: string)
    requires StarFree(a)
    ensures Emphasize(a + b) == a + Emphasize(b)
  {
    var s := a + b;
    FindPairSkipsStarFree(a, b);
    FindPairAfterStarFree(a, b, 0, |a|);
    match FindPair(b, 0)
    case None =>
      EmphasizeNoPair(s);
      EmphasizeNoPair(b);
    case Some(i) =>
      var i' := |a| + i;
      FindPairAfterStarFree(a, b, i + 2, i' + 2);
      match FindPair(b, i + 2)
      case None =>
        EmphasizeUnclosed(s, i');
        EmphasizeUnclosed(b, i);
      case Some(k) =>
        ShiftSpan(a, b, s, i, k, i', |a| + k);
  }

  lemma ShiftSpan(a: string, b: string, s: string, i: nat, k: nat, i': nat, k': nat)
    requires s == a + b && i' == |a| + i && k' == |a| + k
    requires FindPair(s, 0) == Some(i') && FindPair(s, i' + 2) == Some(k')
    requires FindPair(b, 0) == Some(i) && FindPair(b, i + 2) == Some(k)
    ensures Emphasize(s) == a + Emphasize(b)
  {
    EmphasizeStep(s, i', k');
    EmphasizeStep(b, i, k);
    SpanAfter(a, b, s, i, k, i', k', Emphasize(s), Emphasize(b));
  }

  lemma EmphasizeNoPair(s: string)
    requires FindPair(s, 0).None?
    ensures Emphasize(s) == s
  {
  }

  lemma EmphasizeUnclosed(s: string, i: nat)
    requires FindPair(s, 0) == Some(i) && FindPair(s, i + 2).None?
    ensures Emphasize(s) == s
  {
  }

  /** Text without asterisks after a line passes through the strong
      rewrite untouched. */
  lemma {:induction false} EmphasizeBeforeStarFree(b: string, c: string)
    requires StarFree(c)
    ensures Emphasize(b + c) == Emphasize(b) + c
    decreases |b|
  {
    var s := b + c;
    FindPairBeforeStarFree(b, c, 0);
    match FindPair(b, 0)
    case None =>
      EmphasizeNoPair(s);
      EmphasizeNoPair(b);
    case Some(i) =>
      FindPairBeforeStarFree(b, c, i + 2);
      match FindPair(b, i + 2)
      case None =>
        EmphasizeUnclosed(s, i);
        EmphasizeUnclosed(b, i);
      case Some(k) =>
        EmphasizeBeforeStarFree(b[k + 2..], c);
        SpanBeforeCase(b, c, s, i, k);
  }

  lemma SpanBeforeCase(b: string, c: string, s: string, i: nat, k: nat)
    requires s == b + c
    requires FindPair(s, 0) == Some(i) && FindPair(s, i + 2) == Some(k)
    requires FindPair(b, 0) == Some(i) && FindPair(b, i + 2) == Some(k)
    requires Emphasize(b[k + 2..] + c) == Emphasize(b[k + 2..]) + c
    ensures Emphasize(s) == Emphasize(b) + c
  {
    EmphasizeStep(s, i, k);
    EmphasizeStep(b, i, k);
    SlicesBefore(b, c, s, i, k);
    SpanBefore(b[..i], b[i + 2..k], Emphasize(b[k + 2..]), c);
  }

  lemma SlicesBefore(b: string, c: string, s: string, i: nat, k: nat)
    requires s == b + c && i + 2 <= k && k + 2 <= |b|
    ensures s[..i] == b[..i] && s[i + 2..k] == b[i + 2..k] && s[k + 2..] == b[k + 2..] + c
  {
    assert s[..i] == b[..i];
    assert s[i + 2..k] == b[i + 2..k];
    assert s[k + 2..] == b[k + 2..] + c;
  }

  lemma SpanBefore(before: string, inner: string, after: string, c: string)
    ensures StrongSpan(before, inner, after + c) == StrongSpan(before, inner, after) + c
  {
  }

  // ---------------------------------------------------------------------
  // Every rewrite maps a line to a line.

  lemma {:induction false} EmphasizeKeepsLine(line: string)
    requires IsLine(line)
    ensures IsLine(Emphasize(line))
    decreases |line|
  {
    match FindPair(line, 0)
    case None =>
    case Some(i) =>
      match FindPair(line, i + 2)
      case None =>
      case Some(k) =>
        EmphasizeStep(line, i, k);
        PiecesOfLine(line, i, k);
        EmphasizeKeepsLine(line[k + 2..]);
        SpanKeepsLine(line[..i], line[i + 2..k], Emphasize(line[k + 2..]));
  }

  lemma SliceOfLine(line: string, x: nat, y: nat)
    requires IsLine(line) && x <= y <= |line|
    ensures IsLine(line[x..y])
  {
    forall j | 0 <= j < y - x
      ensures !IsLineTerminator(line[x..y][j])
    {
      assert line[x..y][j] == line[x + j];
    }
  }

  lemma PiecesOfLine(line: string, i: nat, k: nat)
    requires IsLine(line) && i + 2 <= k && k + 2 <= |line|
    ensures IsLine(line[..i]) && IsLine(line[i + 2..k]) && IsLine(line[k + 2..])
  {
    SliceOfLine(line, 0, i);
    SliceOfLine(line, i + 2, k);
    SliceOfLine(line, k + 2, |line|);
    assert line[..i] == line[0..i];
    assert line[k + 2..] == line[k + 2..|line|];
  }

  lemma SpanKeepsLine(before: string, inner: string, after: string)
    requires IsLine(before) && IsLine(inner) && IsLine(after)
    ensures IsLine(StrongSpan(before, inner, after))
  {
    MarkupIsLine(StrongOpen);
    MarkupIsLine(StrongClose);
    LineConcat(before, StrongOpen);
    LineConcat(before + StrongOpen, inner);
    LineConcat(before + StrongOpen + inner, StrongClose);
    LineConcat(before + StrongOpen + inner + StrongClose, after);
  }

  lemma WrapKeepsLine(line: string, marker: string, open: Markup, close: Markup)
    requires IsLine(line)
    ensures IsLine(Wrap(line, marker, open, close))
  {
    if StartsWith(line, marker) {
      MarkupIsLine(open);
      MarkupIsLine(close);
      LineConcat(open, line[|marker|..]);
      LineConcat(open + line[|marker|..], close);
    }
  }

  lemma RewriteKeepsLine(rule: Rule, line: string)
    requires IsLine(line)
    ensures IsLine(Rewrite(rule, line))
  {
    match rule
    case Heading3 => WrapKeepsLine(line, "### ", H3Open, H3Close);
    case Heading2 => WrapKeepsLine(line, "## ", H2Open, H2Close);
    case Heading1 => WrapKeepsLine(line, "# ", H1Open, H1Close);
    case Strong => EmphasizeKeepsLine(line);
    case HorizontalRule => MarkupIsLine(HrTag);
    case Item => WrapKeepsLine(line, "- ", ItemOpen, ItemClose);
    case SubItem => WrapKeepsLine(line, "  - ", SubItemOpen, ItemClose);
  }

  // ---------------------------------------------------------------------
  // The page's sequence of whole-text rewrites is the line-wise sweep.

  lemma {:induction false} LineWiseNoRules(s: string)
    ensures LineWise([], s) == s
    decreases |s|
  {
    var n := LineEnd(s);
    if n < |s| {
      LineWiseNoRules(s[n + 1..]);
      SplitAtLineEnd(s, n);
    }
  }

  lemma SplitAtLineEnd(s: string, n: nat)
    requires n < |s|
    ensures s == s[..n] + [s[n]] + s[n + 1..]
  {
  }

  /** A whole-text pass followed by a line-wise sweep is one longer sweep. */
  lemma {:induction false} PassThenLineWise(r: Rule, rs: seq<Rule>, s: string)
    ensures LineWise(rs, Pass(r, s)) == LineWise([r] + rs, s)
    decreases |s|
  {
    var n := LineEnd(s);
    if n == |s| {
      PassLastLine(r, rs, s);
    } else {
      var rest := s[n + 1..];
      PassThenLineWise(r, rs, rest);
      PassNextLine(r, rs, s, n, rest);
    }
  }

  lemma PassLastLine(r: Rule, rs: seq<Rule>, s: string)
    requires LineEnd(s) == |s|
    ensures LineWise(rs, Pass(r, s)) == LineWise([r] + rs, s)
  {
    assert s[..|s|] == s;
    RewriteKeepsLine(r, s);
    RewriteLineCons(r, rs, s);
    LineWiseOfLine(rs, Rewrite(r, s));
    LineWiseOfLine([r] + rs, s);
  }

  lemma PassNextLine(r: Rule, rs: seq<Rule>, s: string, n: nat, rest: string)
    requires n == LineEnd(s) && n < |s| && rest == s[n + 1..]
    requires LineWise(rs, Pass(r, rest)) == LineWise([r] + rs, rest)
    ensures LineWise(rs, Pass(r, s)) == LineWise([r] + rs, s)
  {
    var w := Rewrite(r, s[..n]);
    RewriteKeepsLine(r, s[..n]);
    RewriteLineCons(r, rs, s[..n]);
    LineWiseCons(rs, w, s[n], Pass(r, rest));
  }

  lemma RewriteLineCons(r: Rule, rs: seq<Rule>, line: string)
    ensures RewriteLine([r] + rs, line) == RewriteLine(rs, Rewrite(r, line))
  {
    assert ([r] + rs)[1..] == rs;
  }

  lemma LineWiseOfLine(rules: seq<Rule>, line: string)
    requires IsLine(line)
    ensures LineWise(rules, line) == RewriteLine(rules, line)
  {
    LineEndOfLine(line);
    assert line[..|line|] == line;
  }

  /** The sweep over a line, a terminator, and the rest of a text. */
  lemma LineWiseCons(rules: seq<Rule>, line: string, t: char, rest: string)
    requires IsLine(line) && IsLineTerminator(t)
    ensures LineWise(rules, line + [t] + rest) == RewriteLine(rules, line) + [t] + LineWise(rules, rest)
  {
    var s := line + [t] + rest;
    LineEndAfterLine(line, t, rest);
    assert s[..|line|] == line && s[|line|] == t && s[|line| + 1..] == rest;
  }

  /** Applying the rules one whole-text pass at a time, as the page does,
      gives the same text as applying all of them to each line. */
  lemma {:induction false} PassesAreLineWise(rules: seq<Rule>, s: string)
    ensures Passes(rules, s) == LineWise(rules, s)
    decreases |rules|
  {
    if |rules| == 0 {
      LineWiseNoRules(s);
    } else {
      PassesAreLineWise(rules[1..], Pass(rules[0], s));
      PassThenLineWise(rules[0], rules[1..], s);
      assert [rules[0]] + rules[1..] == rules;
    }
  }

  lemma {:induction false} BreakLinesAppend(a: string, b: string)
    ensures BreakLines(a + b) == BreakLines(a) + BreakLines(b)
    decreases |a|
  {
    if |a| == 0 {
      assert a + b == b;
    } else {
      var head := if a[0] == '\n' then LineBreak else [a[0]];
      assert (a + b)[0] == a[0];
      assert (a + b)[1..] == a[1..] + b;
      BreakLinesAppend(a[1..], b);
      assert BreakLines(a + b) == head + (BreakLines(a[1..]) + BreakLines(b));
      assert BreakLines(a) == head + BreakLines(a[1..]);
    }
  }

  lemma {:induction false} BreakLinesOfLine(a: string)
    requires IsLine(a)
    ensures BreakLines(a) == a
    decreases |a|
  {
    if |a| > 0 {
      BreakLinesOfLine(a[1..]);
    }
  }

  lemma RewriteLineKeepsLine(rules: seq<Rule>, line: string)
    requires IsLine(line)
    ensures IsLine(RewriteLine(rules, line))
    decreases |rules|
  {
    if |rules| > 0 {
      RewriteKeepsLine(rules[0], line);
      RewriteLineKeepsLine(rules[1..], Rewrite(rules[0], line));
    }
  }

  lemma {:induction false} BreakLineWise(rules: seq<Rule>, s: string)
    requires OnlyLineFeeds(s)
    ensures BreakLines(LineWise(rules, s)) == JoinBreaks(RewriteLines(rules, Lines(s)))
    decreases |s|
  {
    var n := LineEnd(s);
    if n == |s| {
      BreakLastLine(rules, s);
    } else {
      var rest := s[n + 1..];
      OnlyLineFeedsAfter(s, n);
      BreakLineWise(rules, rest);
      BreakNextLine(rules, s, n, rest);
    }
  }

  lemma BreakLastLine(rules: seq<Rule>, s: string)
    requires LineEnd(s) == |s|
    ensures BreakLines(LineWise(rules, s)) == JoinBreaks(RewriteLines(rules, Lines(s)))
  {
    assert s[..|s|] == s;
    RewriteLineKeepsLine(rules, s);
    BreakLinesOfLine(RewriteLine(rules, s));
  }

  lemma BreakNextLine(rules: seq<Rule>, s: string, n: nat, rest: string)
    requires n == LineEnd(s) && n < |s| && s[n] == '\n' && rest == s[n + 1..]
    requires BreakLines(LineWise(rules, rest)) == JoinBreaks(RewriteLines(rules, Lines(rest)))
    ensures BreakLines(LineWise(rules, s)) == JoinBreaks(RewriteLines(rules, Lines(s)))
  {
    var l := s[..n];
    var w := RewriteLine(rules, l);
    RewriteLineKeepsLine(rules, l);
    BreakLinesOfLine(w);
    BreakAtLineFeed(w, LineWise(rules, rest));
    RewriteLinesCons(rules, l, Lines(rest));
    JoinBreaksCons(w, RewriteLines(rules, Lines(rest)));
  }

  lemma OnlyLineFeedsAfter(s: string, n: nat)
    requires OnlyLineFeeds(s) && n < |s| && IsLineTerminator(s[n])
    ensures s[n] == '\n' && OnlyLineFeeds(s[n + 1..])
  {
    var rest := s[n + 1..];
    forall i | 0 <= i < |rest| && IsLineTerminator(rest[i])
      ensures rest[i] == '\n'
    {
      assert rest[i] == s[n + 1 + i];
    }
  }

  lemma BreakAtLineFeed(r: string, w: string)
    requires IsLine(r)
    ensures BreakLines(r + ['\n'] + w) == BreakLines(r) + LineBreak + BreakLines(w)
  {
    BreakLinesAppend(r + ['\n'], w);
    BreakLinesAppend(r, ['\n']);
    assert BreakLines(['\n']) == LineBreak + BreakLines([]);
  }

  lemma RewriteLinesCons(rules: seq<Rule>, l: string, ls: seq<string>)
    ensures RewriteLines(rules, [l] + ls) == [RewriteLine(rules, l)] + RewriteLines(rules, ls)
  {
    assert ([l] + ls)[0] == l && ([l] + ls)[1..] == ls;
  }

  lemma JoinBreaksCons(x: string, ys: seq<string>)
    requires |ys| >= 1
    ensures JoinBreaks([x] + ys) == x + LineBreak + JoinBreaks(ys)
  {
    assert ([x] + ys)[1..] == ys;
  }

  /** When the text's only line terminator is the line feed, the page's
      output is the text with its fences stripped, cut into lines, each
      line rendered on its own, and the results joined with `<br />`. */
  lemma ParseMarkdownIsLineWise(text: string)
    requires text != "" && OnlyLineFeeds(text)
    ensures ParseMarkdown(Some(text)) == JoinBreaks(RewriteLines(Rules, Lines(StripFences(text))))
  {
    var body := StripFences(text);
    StripFencesKeepsLineFeeds(text);
    PassesAreLineWise(Rules, body);
    BreakLineWise(Rules, body);
  }

  lemma StripFencesKeepsLineFeeds(text: string)
    requires OnlyLineFeeds(text)
    ensures OnlyLineFeeds(StripFences(text))
  {
    var body := StripFences(text);
    var lead := if StartsWith(text, OpeningFence) then |OpeningFence| else 0;
    forall i | 0 <= i < |body| && IsLineTerminator(body[i])
      ensures body[i] == '\n'
    {
      assert body[i] == text[lead + i];
    }
  }

  // ---------------------------------------------------------------------
  // What the page makes of each kind of line.

  /** Rendering a line is putting it through the page's rule list. */
  lemma RenderLineIsRewriteLine(line: string)
    ensures RenderLine(line) == RewriteLine(Rules, line)
  {
    var l1 := Rewrite(Heading3, line);
    var l2 := Rewrite(Heading2, l1);
    var l3 := Rewrite(Heading1, l2);
    var l4 := Rewrite(Strong, l3);
    var l5 := Rewrite(HorizontalRule, l4);
    var l6 := Rewrite(Item, l5);
    var l7 := Rewrite(SubItem, l6);
    assert Rules[1..] == [Heading2, Heading1, Strong, HorizontalRule, Item, SubItem];
    assert Rules[1..][1..] == [Heading1, Strong, HorizontalRule, Item, SubItem];
    assert Rules[1..][1..][1..] == [Strong, HorizontalRule, Item, SubItem];
    assert Rules[1..][1..][1..][1..] == [HorizontalRule, Item, SubItem];
    assert Rules[1..][1..][1..][1..][1..] == [Item, SubItem];
    assert Rules[1..][1..][1..][1..][1..][1..] == [SubItem];
    assert RewriteLine([SubItem], l6) == l7;
    assert RewriteLine([Item, SubItem], l5) == l7;
    assert RewriteLine([HorizontalRule, Item, SubItem], l4) == l7;
    assert RewriteLine([Strong, HorizontalRule, Item, SubItem], l3) == l7;
    assert RewriteLine([Heading1, Strong, HorizontalRule, Item, SubItem], l2) == l7;
    assert RewriteLine([Heading2, Heading1, Strong, HorizontalRule, Item, SubItem], l1) == l7;
  }
}
