/**
 * Rendering of a function's branch forest into nested `describe` blocks with
 * one pending `xit` placeholder per leaf. Every nesting level adds one
 * indentation unit (`spacer`). Alongside the string renderers, an outline
 * (a list of opening, placeholder and closing lines, each with its depth)
 * describes the same output structurally.
 */
module Rendering {

  import opened Text
  import opened TestTree
  import opened Configuration

  const PendingHeader := "xit(`should be implemented`, () => {"
  const Closer := "});"

  /** Each of `xs` with `prefix` in front. */
  function Prefixed(prefix: string, xs: seq<string>): (r: seq<string>)
    ensures |r| == |xs|
  {
    seq(|xs|, k requires 0 <= k < |xs| => prefix + xs[k])
  }

  /** The placeholder's lines before indentation: the body lines are shifted by one unit. */
  function PlaceholderLines(cfg: Settings): seq<string>
  {
    [PendingHeader] + Prefixed(cfg.spacer, Split(cfg.itContent, '\n')) + [Closer]
  }

  /** One pending placeholder test at `indent`, wrapped in a leading and a trailing newline. */
  function IndentedTestString(indent: string, cfg: Settings): (r: string)
    ensures |r| >= 2 && r[0] == '\n' && r[|r| - 1] == '\n'
  {
    "\n" + Join(Prefixed(indent, PlaceholderLines(cfg)), '\n') + "\n"
  }

  lemma NoCharAppend(a: string, b: string, c: char)
    requires NoChar(a, c) && NoChar(b, c)
    ensures NoChar(a + b, c)
  {
  }

  lemma IndentedLinesShape(indent: string, cfg: Settings)
    ensures Prefixed(indent, PlaceholderLines(cfg)) ==
      [indent + PendingHeader] + Prefixed(indent + cfg.spacer, Split(cfg.itContent, '\n')) + [indent + Closer]
  {
    var body := Split(cfg.itContent, '\n');
    var lines := Prefixed(indent, PlaceholderLines(cfg));
    var expected := [indent + PendingHeader] + Prefixed(indent + cfg.spacer, body) + [indent + Closer];
    assert |lines| == |expected|;
    forall k | 0 <= k < |lines|
      ensures lines[k] == expected[k]
    {
      if 0 < k < |lines| - 1 {
        assert lines[k] == indent + (cfg.spacer + body[k - 1]);
        assert expected[k] == (indent + cfg.spacer) + body[k - 1];
      }
    }
  }

  lemma IndentedLinesNoNewline(indent: string, cfg: Settings)
    requires NoChar(indent, '\n') && NoChar(cfg.spacer, '\n')
    ensures forall k :: 0 <= k < |Prefixed(indent, PlaceholderLines(cfg))| ==>
      NoChar(Prefixed(indent, PlaceholderLines(cfg))[k], '\n')
  {
    var body := Split(cfg.itContent, '\n');
    var lines := Prefixed(indent, PlaceholderLines(cfg));
    assert NoChar(PendingHeader, '\n');
    assert NoChar(Closer, '\n');
    forall k | 0 <= k < |lines|
      ensures NoChar(lines[k], '\n')
    {
      if k == 0 {
        NoCharAppend(indent, PendingHeader, '\n');
      } else if k == |lines| - 1 {
        NoCharAppend(indent, Closer, '\n');
      } else {
        assert lines[k] == indent + (cfg.spacer + body[k - 1]);
        NoCharAppend(cfg.spacer, body[k - 1], '\n');
        NoCharAppend(indent, cfg.spacer + body[k - 1], '\n');
      }
    }
  }

  /**
   * Read back line by line (indent and unit free of newlines), the
   * placeholder is its header, the configured body lines and its closer,
   * every line prefixed by the indent and every body line by one more unit.
   */
  lemma PlaceholderShape(indent: string, cfg: Settings)
    requires NoChar(indent, '\n') && NoChar(cfg.spacer, '\n')
    ensures var r := IndentedTestString(indent, cfg);
      Split(r[1..|r| - 1], '\n') ==
        [indent + PendingHeader] +
        Prefixed(indent + cfg.spacer, Split(cfg.itContent, '\n')) +
        [indent + Closer]
  {
    var r := IndentedTestString(indent, cfg);
    var lines := Prefixed(indent, PlaceholderLines(cfg));
    IndentedLinesNoNewline(indent, cfg);
    assert r[1..|r| - 1] == Join(lines, '\n');
    SplitJoin(lines, '\n');
    IndentedLinesShape(indent, cfg);
  }

  /** At every nesting depth the placeholder block has the line shape of `PlaceholderShape`. */
  lemma PlaceholderShapeAtDepth(depth: nat, cfg: Settings)
    requires NoChar(cfg.spacer, '\n')
    ensures var indent := Repeat(cfg.spacer, depth);
      var r := IndentedTestString(indent, cfg);
      Split(r[1..|r| - 1], '\n') ==
        [indent + PendingHeader] +
        Prefixed(indent + cfg.spacer, Split(cfg.itContent, '\n')) +
        [indent + Closer]
  {
    RepeatNoChar(cfg.spacer, depth, '\n');
    PlaceholderShape(Repeat(cfg.spacer, depth), cfg);
  }

  /** `"\n" + indent + "describe(`" + title + "`, () => {"`: the head of a test group. */
  function DescribeOpen(indent: string, title: string): string
  {
    "\n" + indent + "describe(`" + title + "`, () => {"
  }

  function DescribeClose(indent: string): string
  {
    indent + Closer + "\n"
  }

  function WhenTitle(condition: string): string
  {
    "when (" + condition + ")"
  }

  predicate EndsWith(s: string, suffix: string) {
    |suffix| <= |s| && s[|s| - |suffix|..] == suffix
  }

  /**
   * The test group of one branch at `indent`: it opens with the branch's
   * `when (C)` title, holds one placeholder (childless branch) or its
   * children's groups one unit deeper, and closes at `indent`.
   */
  function IndentedTestForBranch(indent: string, b: Branch, cfg: Settings): (r: string)
    ensures DescribeOpen(indent, WhenTitle(b.condition)) <= r
    ensures EndsWith(r, DescribeClose(indent))
    decreases BSize(b), 1
  {
    var inner :=
      if b.branches == [] then IndentedTestString(indent + cfg.spacer, cfg)
      else IndentedTestsForBranches(indent + cfg.spacer, b.branches, cfg);
    var r := DescribeOpen(indent, WhenTitle(b.condition)) + inner + DescribeClose(indent);
    assert r[..|DescribeOpen(indent, WhenTitle(b.condition))|] == DescribeOpen(indent, WhenTitle(b.condition));
    r
  }

  /** The groups of sibling branches, one after the other. */
  function IndentedTestsForBranches(indent: string, bs: seq<Branch>, cfg: Settings): (r: string)
    ensures bs != [] ==> DescribeOpen(indent, WhenTitle(bs[0].condition)) <= r
    decreases BSizeAll(bs), 2
  {
    if bs == [] then ""
    else IndentedTestForBranch(indent, bs[0], cfg) + IndentedTestsForBranches(indent, bs[1..], cfg)
  }

  /**
   * The block of one function: a group titled with its name at no indent,
   * holding one placeholder (empty forest) or the groups of its roots.
   */
  function IndentedTestForFunction(fn: FunctionToTest, cfg: Settings): (r: string)
    ensures DescribeOpen("", fn.name) <= r
    ensures EndsWith(r, DescribeClose(""))
  {
    var inner :=
      if fn.branches == [] then IndentedTestString(cfg.spacer, cfg)
      else IndentedTestsForBranches(cfg.spacer, fn.branches, cfg);
    var r := DescribeOpen("", fn.name) + inner + DescribeClose("");
    assert r[..|DescribeOpen("", fn.name)|] == DescribeOpen("", fn.name);
    r
  }

  // ---------------------------------------------------------------------
  // The outline of the rendered output.

  datatype Line =
    | Open(depth: nat, title: string)
    | Pending(depth: nat)
    | Close(depth: nat)

  function LineText(l: Line, cfg: Settings): string
  {
    match l
    case Open(d, title) => DescribeOpen(Repeat(cfg.spacer, d), title)
    case Pending(d) => IndentedTestString(Repeat(cfg.spacer, d), cfg)
    case Close(d) => DescribeClose(Repeat(cfg.spacer, d))
  }

  function LineTexts(ls: seq<Line>, cfg: Settings): (r: seq<string>)
    ensures |r| == |ls|
  {
    seq(|ls|, k requires 0 <= k < |ls| => LineText(ls[k], cfg))
  }

  /** The text of an outline: the texts of its lines, in order. */
  function Flatten(ls: seq<Line>, cfg: Settings): string
  {
    Concat(LineTexts(ls, cfg))
  }

  function PendingCount(ls: seq<Line>): nat
  {
    if ls == [] then 0 else (if ls[0].Pending? then 1 else 0) + PendingCount(ls[1..])
  }

  function BranchOutline(b: Branch, depth: nat): seq<Line>
    decreases BSize(b), 1
  {
    [Open(depth, WhenTitle(b.condition))] +
    (if b.branches == [] then [Pending(depth + 1)] else BranchesOutline(b.branches, depth + 1)) +
    [Close(depth)]
  }

  function BranchesOutline(bs: seq<Branch>, depth: nat): seq<Line>
    decreases BSizeAll(bs), 2
  {
    if bs == [] then [] else BranchOutline(bs[0], depth) + BranchesOutline(bs[1..], depth)
  }

  function FunctionOutline(fn: FunctionToTest): seq<Line>
  {
    [Open(0, fn.name)] +
    (if fn.branches == [] then [Pending(1)] else BranchesOutline(fn.branches, 1)) +
    [Close(0)]
  }

  lemma FlattenAppend(xs: seq<Line>, ys: seq<Line>, cfg: Settings)
    ensures Flatten(xs + ys, cfg) == Flatten(xs, cfg) + Flatten(ys, cfg)
  {
    assert LineTexts(xs + ys, cfg) == LineTexts(xs, cfg) + LineTexts(ys, cfg);
    ConcatAppend(LineTexts(xs, cfg), LineTexts(ys, cfg));
  }

  lemma FlattenOne(l: Line, cfg: Settings)
    ensures Flatten([l], cfg) == LineText(l, cfg)
  {
    assert LineTexts([l], cfg) == [LineText(l, cfg)];
    assert Concat([LineText(l, cfg)]) == LineText(l, cfg) + Concat([]);
  }

  lemma {:induction false} PendingCountAppend(xs: seq<Line>, ys: seq<Line>)
    ensures PendingCount(xs + ys) == PendingCount(xs) + PendingCount(ys)
  {
    if xs == [] {
      assert xs + ys == ys;
    } else {
      PendingCountAppend(xs[1..], ys);
      assert (xs + ys)[1..] == xs[1..] + ys;
    }
  }

  /** Opening, placeholder and closing lines, wrapped around `inner`, flatten piece by piece. */
  lemma FlattenWrapped(first: Line, inner: seq<Line>, last: Line, cfg: Settings)
    ensures Flatten([first] + inner + [last], cfg) ==
      LineText(first, cfg) + Flatten(inner, cfg) + LineText(last, cfg)
  {
    FlattenAppend([first] + inner, [last], cfg);
    FlattenAppend([first], inner, cfg);
    FlattenOne(first, cfg);
    FlattenOne(last, cfg);
  }

  /**
   * A branch at depth d renders exactly as its outline: every line of it is
   * indented by as many units as its depth, children one unit deeper.
   */
  lemma {:induction false} BranchRendersOutline(b: Branch, depth: nat, cfg: Settings)
    ensures IndentedTestForBranch(Repeat(cfg.spacer, depth), b, cfg) ==
      Flatten(BranchOutline(b, depth), cfg)
    decreases BSize(b), 1
  {
    var indent := Repeat(cfg.spacer, depth);
    var inner := if b.branches == [] then [Pending(depth + 1)] else BranchesOutline(b.branches, depth + 1);
    var innerText :=
      if b.branches == [] then IndentedTestString(indent + cfg.spacer, cfg)
      else IndentedTestsForBranches(indent + cfg.spacer, b.branches, cfg);
    if b.branches == [] {
      FlattenOne(Pending(depth + 1), cfg);
    } else {
      BranchesRenderOutline(b.branches, depth + 1, cfg);
    }
    GroupFlattens(depth, WhenTitle(b.condition), inner, innerText, cfg);
  }

  /** A group whose inner outline flattens to `innerText` flattens to that text wrapped in its head and closer. */
  lemma GroupFlattens(depth: nat, title: string, inner: seq<Line>, innerText: string, cfg: Settings)
    requires Flatten(inner, cfg) == innerText
    ensures Flatten([Open(depth, title)] + inner + [Close(depth)], cfg) ==
      DescribeOpen(Repeat(cfg.spacer, depth), title) + innerText + DescribeClose(Repeat(cfg.spacer, depth))
  {
    FlattenWrapped(Open(depth, title), inner, Close(depth), cfg);
  }

  lemma {:induction false} BranchesRenderOutline(bs: seq<Branch>, depth: nat, cfg: Settings)
    ensures IndentedTestsForBranches(Repeat(cfg.spacer, depth), bs, cfg) ==
      Flatten(BranchesOutline(bs, depth), cfg)
    decreases BSizeAll(bs), 2
  {
    if bs != [] {
      BranchRendersOutline(bs[0], depth, cfg);
      BranchesRenderOutline(bs[1..], depth, cfg);
      FlattenAppend(BranchOutline(bs[0], depth), BranchesOutline(bs[1..], depth), cfg);
    }
  }

  /** A function's block renders exactly as its outline. */
  lemma FunctionRendersOutline(fn: FunctionToTest, cfg: Settings)
    ensures IndentedTestForFunction(fn, cfg) == Flatten(FunctionOutline(fn), cfg)
  {
    var inner := if fn.branches == [] then [Pending(1)] else BranchesOutline(fn.branches, 1);
    FlattenWrapped(Open(0, fn.name), inner, Close(0), cfg);
    assert Repeat(cfg.spacer, 1) == cfg.spacer;
    if fn.branches == [] {
      FlattenOne(Pending(1), cfg);
    } else {
      BranchesRenderOutline(fn.branches, 1, cfg);
    }
  }

  /** A branch's outline holds one placeholder per leaf of the branch. */
  lemma {:induction false} BranchPendingCount(b: Branch, depth: nat)
    ensures PendingCount(BranchOutline(b, depth)) == LeafCount(b)
    decreases BSize(b), 1
  {
    var inner := if b.branches == [] then [Pending(depth + 1)] else BranchesOutline(b.branches, depth + 1);
    PendingCountAppend([Open(depth, WhenTitle(b.condition))] + inner, [Close(depth)]);
    PendingCountAppend([Open(depth, WhenTitle(b.condition))], inner);
    if b.branches != [] {
      BranchesPendingCount(b.branches, depth + 1);
    }
  }

  lemma {:induction false} BranchesPendingCount(bs: seq<Branch>, depth: nat)
    ensures PendingCount(BranchesOutline(bs, depth)) == LeafCountAll(bs)
    decreases BSizeAll(bs), 2
  {
    if bs != [] {
      BranchPendingCount(bs[0], depth);
      BranchesPendingCount(bs[1..], depth);
      PendingCountAppend(BranchOutline(bs[0], depth), BranchesOutline(bs[1..], depth));
    }
  }

  /**
   * A function's block holds as many placeholders as its forest has leaves,
   * and exactly one when the forest is empty.
   */
  lemma FunctionPendingCount(fn: FunctionToTest)
    ensures PendingCount(FunctionOutline(fn)) ==
      if fn.branches == [] then 1 else LeafCountAll(fn.branches)
  {
    var inner := if fn.branches == [] then [Pending(1)] else BranchesOutline(fn.branches, 1);
    PendingCountAppend([Open(0, fn.name)] + inner, [Close(0)]);
    PendingCountAppend([Open(0, fn.name)], inner);
    if fn.branches != [] {
      BranchesPendingCount(fn.branches, 1);
    }
  }

  /**
   * A branch's outline opens and closes at its own depth, and everything in
   * between sits strictly deeper.
   */
  lemma {:induction false} BranchOutlineNesting(b: Branch, depth: nat)
    ensures var ls := BranchOutline(b, depth);
      |ls| >= 3 && ls[0] == Open(depth, WhenTitle(b.condition)) && ls[|ls| - 1] == Close(depth) &&
      forall k :: 0 < k < |ls| - 1 ==> ls[k].depth > depth
    decreases BSize(b), 1
  {
    var inner := if b.branches == [] then [Pending(depth + 1)] else BranchesOutline(b.branches, depth + 1);
    var ls := BranchOutline(b, depth);
    assert ls == [Open(depth, WhenTitle(b.condition))] + inner + [Close(depth)];
    if b.branches != [] {
      BranchesOutlineDeeper(b.branches, depth + 1);
    }
    forall k | 0 < k < |ls| - 1
      ensures ls[k].depth > depth
    {
      assert ls[k] == inner[k - 1];
    }
  }

  lemma {:induction false} BranchesOutlineDeeper(bs: seq<Branch>, depth: nat)
    ensures bs != [] ==> |BranchesOutline(bs, depth)| >= 3
    ensures forall k :: 0 <= k < |BranchesOutline(bs, depth)| ==> BranchesOutline(bs, depth)[k].depth >= depth
    decreases BSizeAll(bs), 2
  {
    if bs != [] {
      BranchOutlineNesting(bs[0], depth);
      BranchesOutlineDeeper(bs[1..], depth);
    }
  }
}
