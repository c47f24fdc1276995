/**
 * The records the generator passes between its stages: a test branch (a
 * condition text and the branches nested under it) and the record kept for
 * each function found in a source file.
 */
module TestTree {

  datatype Branch = Branch(condition: string, branches: seq<Branch>)

  datatype FunctionToTest = FunctionToTest(
    name: string,
    isPrivate: bool,
    isTested: bool,
    branches: seq<Branch>)

  /** Number of childless branches in a tree: the paths that each get one placeholder test. */
  function LeafCount(b: Branch): nat
  {
    if b.branches == [] then 1 else LeafCountAll(b.branches)
  }

  function LeafCountAll(bs: seq<Branch>): nat
  {
    if bs == [] then 0 else LeafCount(bs[0]) + LeafCountAll(bs[1..])
  }

  lemma {:induction false} LeafCountAllAppend(xs: seq<Branch>, ys: seq<Branch>)
    ensures LeafCountAll(xs + ys) == LeafCountAll(xs) + LeafCountAll(ys)
  {
    if xs == [] {
      assert xs + ys == ys;
    } else {
      LeafCountAllAppend(xs[1..], ys);
      assert (xs + ys)[1..] == xs[1..] + ys;
    }
  }

  function BSize(b: Branch): (n: nat)
    ensures n >= 1
  {
    1 + BSizeAll(b.branches)
  }

  function BSizeAll(bs: seq<Branch>): (n: nat)
    ensures forall k :: 0 <= k < |bs| ==> BSize(bs[k]) <= n
  {
    if bs == [] then 0 else BSize(bs[0]) + BSizeAll(bs[1..])
  }

  lemma {:induction false} BSizeAllAppend(xs: seq<Branch>, ys: seq<Branch>)
    ensures BSizeAll(xs + ys) == BSizeAll(xs) + BSizeAll(ys)
  {
    if xs == [] {
      assert xs + ys == ys;
    } else {
      BSizeAllAppend(xs[1..], ys);
      assert (xs + ys)[1..] == xs[1..] + ys;
    }
  }
}
