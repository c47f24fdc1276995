/**
 * The part of the TypeScript syntax tree that the branch extraction looks at.
 * An `if` statement keeps its condition as source text, its then statement
 * (always present in a parsed `if`) and an optional else statement; a block
 * holds its statements; every other statement (loops, `try`, expression
 * statements, ...) is `Other`, holding the statements nested inside it.
 */
module Syntax {

  import opened Wrappers

  datatype Stmt =
    | If(cond: string, thenS: Stmt, elseS: Option<Stmt>)
    | Block(body: seq<Stmt>)
    | Other(inner: seq<Stmt>)

  function Size(s: Stmt): (n: nat)
    ensures n >= 1
  {
    match s
    case If(_, t, e) => 1 + Size(t) + (match e case None => 0 case Some(x) => Size(x))
    case Block(body) => 1 + SizeAll(body)
    case Other(inner) => 1 + SizeAll(inner)
  }

  function SizeAll(ss: seq<Stmt>): (n: nat)
    ensures forall k :: 0 <= k < |ss| ==> Size(ss[k]) <= n
  {
    if ss == [] then 0 else Size(ss[0]) + SizeAll(ss[1..])
  }

  /**
   * The statements, in document order, that the selector
   * `IfStatement > Block > IfStatement` picks from the subtree rooted at `s`:
   * the `if` statements whose parent is a block whose own parent is an `if`.
   * The query is not limited to direct children: it descends into every
   * statement below `s`. `parentIsIf` says that the parent of `s` is an `if`;
   * `parentIsIfBlock` says that the parent of `s` is a block under an `if`.
   */
  function IfBlockIfs(s: Stmt, parentIsIf: bool, parentIsIfBlock: bool): (r: seq<Stmt>)
    ensures forall k :: 0 <= k < |r| ==> r[k].If?
    ensures forall k :: 0 <= k < |r| ==> Size(r[k]) < Size(s) || (parentIsIfBlock && r[k] == s)
    decreases Size(s), 1
  {
    match s
    case If(_, t, e) =>
      (if parentIsIfBlock then [s] else []) + IfBlockIfs(t, true, false) +
      (match e case None => [] case Some(x) => IfBlockIfs(x, true, false))
    case Block(body) => IfBlockIfsAll(body, parentIsIf)
    case Other(inner) => IfBlockIfsAll(inner, false)
  }

  /** The selector's matches below the statements `ss` of one block or other statement. */
  function IfBlockIfsAll(ss: seq<Stmt>, blockUnderIf: bool): (r: seq<Stmt>)
    ensures forall k :: 0 <= k < |r| ==> r[k].If? && Size(r[k]) <= SizeAll(ss)
    decreases SizeAll(ss), 2
  {
    if ss == [] then []
    else IfBlockIfs(ss[0], false, blockUnderIf) + IfBlockIfsAll(ss[1..], blockUnderIf)
  }

  /**
   * The matches of `IfStatement > Block > IfStatement` when the query is run
   * from the then or else statement `branch` of an `if`: every match is a
   * strict part of `branch`.
   */
  function NestedIfs(branch: Stmt): (r: seq<Stmt>)
    ensures forall k :: 0 <= k < |r| ==> r[k].If? && Size(r[k]) < Size(branch)
  {
    IfBlockIfs(branch, true, false)
  }

  /**
   * The matches of `MethodDeclaration > Block > IfStatement` (and of the
   * function and arrow-function variants) on a function whose body block
   * holds `body`: the `if` statements standing directly in that block.
   */
  function TopLevelIfs(body: seq<Stmt>): (r: seq<Stmt>)
    ensures forall k :: 0 <= k < |r| ==> r[k].If?
    ensures |r| == 0 <==> forall k :: 0 <= k < |body| ==> !body[k].If?
  {
    if body == [] then []
    else (if body[0].If? then [body[0]] else []) + TopLevelIfs(body[1..])
  }

  /** Every `if` standing directly in a then or else block is among the block's matches. */
  lemma {:induction false} DirectIfsMatched(body: seq<Stmt>, k: nat)
    requires k < |body| && body[k].If?
    ensures body[k] in NestedIfs(Block(body))
  {
    DirectIfsMatchedAll(body, k);
  }

  lemma {:induction false} DirectIfsMatchedAll(ss: seq<Stmt>, k: nat)
    requires k < |ss| && ss[k].If?
    ensures ss[k] in IfBlockIfsAll(ss, true)
  {
    if k == 0 {
      assert IfBlockIfs(ss[0], false, true)[0] == ss[0];
    } else {
      DirectIfsMatchedAll(ss[1..], k - 1);
    }
  }
}
