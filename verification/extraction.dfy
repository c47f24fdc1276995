/**
 * Branch extraction: an `if` statement becomes a forest of test branches.
 * The then branch carries the condition text C; every else-shaped branch
 * carries the text `!(C)`, written out literally.
 */
module Extraction {

  import opened Wrappers
  import opened Syntax
  import opened TestTree

  /** The negation of a condition, as plain text wrapping: no simplification. */
  function Negated(condition: string): string
  {
    "!(" + condition + ")"
  }

  /** The negated text wraps the condition in `!(` and `)`, so the condition can be read back from it. */
  lemma NegatedShape(condition: string)
    ensures var r := Negated(condition);
      |r| == |condition| + 3 && r[..2] == "!(" && r[2..|r| - 1] == condition && r[|r| - 1] == ')'
  {
    var r := Negated(condition);
    assert r[2..|r| - 1] == condition;
  }

  /**
   * One branch per `if` matched below `branch` (the then or else statement
   * of an `if`), in match order: each carries `lastCondition` and has the
   * matched `if`'s own extraction as its children.
   */
  function DeepTraverseBlock(branch: Stmt, lastCondition: string): (r: seq<Branch>)
    ensures |r| == |NestedIfs(branch)|
    ensures forall k :: 0 <= k < |r| ==> r[k].condition == lastCondition && r[k].branches != []
    ensures forall k :: 0 <= k < |r| ==> r[k].branches == DeepTraverseConditionals(NestedIfs(branch)[k])
    decreases Size(branch), 0
  {
    var ms := NestedIfs(branch);
    seq(|ms|, k requires 0 <= k < |ms| => Branch(lastCondition, DeepTraverseConditionals(ms[k])))
  }

  /**
   * The branches of one `if`: the then branch first, carrying exactly the
   * condition text, then the else-shaped branch `!(C)` unless the else
   * statement is neither an `if`, nor a block, nor absent.
   */
  function DeepTraverseConditionals(node: Stmt): (r: seq<Branch>)
    requires node.If?
    ensures 1 <= |r| <= 2
    ensures r[0].condition == node.cond
    ensures |r| == 2 <==> !(node.elseS.Some? && node.elseS.value.Other?)
    ensures |r| == 2 ==> r[1].condition == Negated(node.cond)
    ensures node.elseS.None? ==> r[1].branches == []
    ensures node.elseS.Some? && node.elseS.value.If? ==> r[1].branches != []
    decreases Size(node), 1
  {
    var thenBranch := Branch(node.cond, DeepTraverseBlock(node.thenS, node.cond));
    match node.elseS
    case None =>
      [thenBranch, Branch(Negated(node.cond), [])]
    case Some(e) =>
      if e.If? then
        [thenBranch, Branch(Negated(node.cond), DeepTraverseConditionals(e))]
      else if e.Block? then
        [thenBranch, Branch(Negated(node.cond), DeepTraverseBlock(e, Negated(node.cond)))]
      else
        [thenBranch]
  }

  /** The extraction of each matched `if`, concatenated in match order. */
  function Forest(ms: seq<Stmt>): (r: seq<Branch>)
    requires forall k :: 0 <= k < |ms| ==> ms[k].If?
    ensures |ms| <= |r| <= 2 * |ms|
  {
    if ms == [] then [] else DeepTraverseConditionals(ms[0]) + Forest(ms[1..])
  }

  /**
   * The forest of a function whose body block holds `body`: one or two
   * roots per `if` standing directly in the body, and none when the body
   * has no such `if`.
   */
  function FindInFunction(body: seq<Stmt>): (r: seq<Branch>)
    ensures r == [] <==> forall k :: 0 <= k < |body| ==> !body[k].If?
    ensures |TopLevelIfs(body)| <= |r| <= 2 * |TopLevelIfs(body)|
  {
    Forest(TopLevelIfs(body))
  }

  lemma {:induction false} TopLevelIfsAppend(xs: seq<Stmt>, ys: seq<Stmt>)
    ensures TopLevelIfs(xs + ys) == TopLevelIfs(xs) + TopLevelIfs(ys)
  {
    if xs != [] {
      TopLevelIfsAppend(xs[1..], ys);
      assert (xs + ys)[1..] == xs[1..] + ys;
    } else {
      assert xs + ys == ys;
    }
  }

  lemma {:induction false} ForestAppend(xs: seq<Stmt>, ys: seq<Stmt>)
    requires forall k :: 0 <= k < |xs| ==> xs[k].If?
    requires forall k :: 0 <= k < |ys| ==> ys[k].If?
    ensures Forest(xs + ys) == Forest(xs) + Forest(ys)
  {
    if xs == [] {
      assert xs + ys == ys;
    } else {
      assert (xs + ys)[1..] == xs[1..] + ys;
      ForestAppend(xs[1..], ys);
    }
  }

  /**
   * Statements in sequence contribute independently: the forest of a body
   * is the forest of its first part followed by that of the rest, so each
   * top-level `if` gives its own roots, never nested under another's.
   */
  lemma FindInFunctionAppend(xs: seq<Stmt>, ys: seq<Stmt>)
    ensures FindInFunction(xs + ys) == FindInFunction(xs) + FindInFunction(ys)
  {
    TopLevelIfsAppend(xs, ys);
    ForestAppend(TopLevelIfs(xs), TopLevelIfs(ys));
  }

  /** A body made of one `if` has exactly that `if`'s branches as its forest. */
  lemma FindInSingleIf(s: Stmt)
    requires s.If?
    ensures FindInFunction([s]) == DeepTraverseConditionals(s)
  {
    assert TopLevelIfs([s]) == [s] + TopLevelIfs([]);
    assert Forest([s]) == DeepTraverseConditionals(s) + Forest([]);
  }

  /** An `if` / `else if` chain over `conds`, with empty blocks and no final `else`. */
  function ElseIfChain(conds: seq<string>): (s: Stmt)
    requires |conds| >= 1
    ensures s.If? && s.cond == conds[0]
  {
    If(conds[0], Block([]), if |conds| == 1 then None else Some(ElseIfChain(conds[1..])))
  }

  /** The nested spine such a chain extracts to: one level per `else if` link. */
  function Spine(conds: seq<string>): (r: seq<Branch>)
    requires |conds| >= 1
  {
    [Branch(conds[0], []),
     Branch(Negated(conds[0]), if |conds| == 1 then [] else Spine(conds[1..]))]
  }

  /**
   * An `if` with N `else if` links and no `else` extracts to a spine that
   * nests one level per link and ends in a childless implicit-else branch;
   * it has exactly N + 2 leaves, one per exclusive path.
   */
  lemma {:induction false} ChainExtraction(conds: seq<string>)
    requires |conds| >= 1
    ensures DeepTraverseConditionals(ElseIfChain(conds)) == Spine(conds)
    ensures LeafCountAll(Spine(conds)) == |conds| + 1
  {
    var s := ElseIfChain(conds);
    assert NestedIfs(Block([])) == [];
    assert DeepTraverseBlock(Block([]), conds[0]) == [];
    if |conds| > 1 {
      ChainExtraction(conds[1..]);
    }
    var sp := Spine(conds);
    assert LeafCount(sp[0]) == 1;
    assert LeafCountAll(sp[1..]) == LeafCount(sp[1]);
  }
}
