/**
 * Sanitization: a child whose condition text equals its parent's is spliced
 * away, its own children taking its place in the parent's list, and the
 * result is sanitized again one level down.
 */
module Sanitizer {

  import opened TestTree

  /**
   * The list built from `children` in order: a child carrying `parent` is
   * replaced by its own children, any other child is kept as it is.
   */
  function Spliced(parent: string, children: seq<Branch>): (r: seq<Branch>)
    ensures BSizeAll(r) <= BSizeAll(children)
    ensures forall k :: 0 <= k < |r| ==> BSize(r[k]) <= BSizeAll(children)
  {
    if children == [] then []
    else
      var head := if children[0].condition == parent then children[0].branches else [children[0]];
      BSizeAllAppend(head, Spliced(parent, children[1..]));
      head + Spliced(parent, children[1..])
  }

  /** Splicing works child by child: it distributes over concatenation, and a single child is replaced by its children exactly when it carries the parent's condition. */
  lemma {:induction false} SplicedLaws(parent: string, xs: seq<Branch>, ys: seq<Branch>, child: Branch)
    ensures Spliced(parent, xs + ys) == Spliced(parent, xs) + Spliced(parent, ys)
    ensures Spliced(parent, [child]) == if child.condition == parent then child.branches else [child]
  {
    assert [child][1..] == [];
    if xs == [] {
      assert xs + ys == ys;
    } else {
      assert (xs + ys)[1..] == xs[1..] + ys;
      SplicedLaws(parent, xs[1..], ys, child);
    }
  }

  /** The branch with its condition kept and its spliced children sanitized in turn. */
  function SanitizeBranch(b: Branch): (r: Branch)
    ensures r.condition == b.condition
    ensures |r.branches| == |Spliced(b.condition, b.branches)|
    decreases BSize(b)
  {
    var valid := Spliced(b.condition, b.branches);
    Branch(b.condition, seq(|valid|, k requires 0 <= k < |valid| => SanitizeBranch(valid[k])))
  }

  /** No child anywhere in the tree repeats its parent's condition. */
  predicate NoRepeats(b: Branch)
    decreases BSize(b)
  {
    forall k :: 0 <= k < |b.branches| ==>
      b.branches[k].condition != b.condition && NoRepeats(b.branches[k])
  }

  /** Every child anywhere in the tree that repeats its parent's condition has children of its own. */
  predicate RepeatsNonEmpty(b: Branch)
    decreases BSize(b)
  {
    forall k :: 0 <= k < |b.branches| ==>
      (b.branches[k].condition == b.condition ==> b.branches[k].branches != []) &&
      RepeatsNonEmpty(b.branches[k])
  }

  lemma {:induction false} SplicedNoRepeats(parent: string, children: seq<Branch>)
    requires forall k :: 0 <= k < |children| ==> children[k].condition != parent
    ensures Spliced(parent, children) == children
  {
    if children != [] {
      SplicedNoRepeats(parent, children[1..]);
      assert children == [children[0]] + children[1..];
    }
  }

  /** Sanitization leaves a tree without repeated conditions unchanged. */
  lemma {:induction false} SanitizeIdentity(b: Branch)
    requires NoRepeats(b)
    ensures SanitizeBranch(b) == b
    decreases BSize(b)
  {
    SplicedNoRepeats(b.condition, b.branches);
    var r := SanitizeBranch(b);
    assert |r.branches| == |b.branches|;
    forall k | 0 <= k < |b.branches|
      ensures r.branches[k] == b.branches[k]
    {
      SanitizeIdentity(b.branches[k]);
    }
  }

  predicate ChildOrGrandchild(x: Branch, child: Branch) {
    x == child || x in child.branches
  }

  /** Every element of the spliced list is a child or a grandchild. */
  lemma {:induction false} SplicedFrom(parent: string, children: seq<Branch>, k: nat)
    requires k < |Spliced(parent, children)|
    ensures exists i :: 0 <= i < |children| && ChildOrGrandchild(Spliced(parent, children)[k], children[i])
  {
    var head := if children[0].condition == parent then children[0].branches else [children[0]];
    if k >= |head| {
      SplicedFrom(parent, children[1..], k - |head|);
      var i :| 0 <= i < |children[1..]| &&
        ChildOrGrandchild(Spliced(parent, children[1..])[k - |head|], children[1..][i]);
      assert Spliced(parent, children)[k] == Spliced(parent, children[1..])[k - |head|];
      assert children[1..][i] == children[i + 1];
    } else {
      assert Spliced(parent, children)[k] == head[k];
    }
  }

  lemma {:induction false} SplicedLeaves(parent: string, children: seq<Branch>)
    requires forall k :: 0 <= k < |children| ==>
      children[k].condition == parent ==> children[k].branches != []
    ensures LeafCountAll(Spliced(parent, children)) == LeafCountAll(children)
  {
    if children != [] {
      SplicedLeaves(parent, children[1..]);
      var head := if children[0].condition == parent then children[0].branches else [children[0]];
      LeafCountAllAppend(head, Spliced(parent, children[1..]));
      if children[0].condition != parent {
        assert LeafCountAll([children[0]]) == LeafCount(children[0]) + LeafCountAll([]);
      }
    }
  }

  lemma {:induction false} LeafCountAllMapped(xs: seq<Branch>, ys: seq<Branch>)
    requires |xs| == |ys|
    requires forall k :: 0 <= k < |xs| ==> LeafCount(xs[k]) == LeafCount(ys[k])
    ensures LeafCountAll(xs) == LeafCountAll(ys)
  {
    if xs != [] {
      LeafCountAllMapped(xs[1..], ys[1..]);
    }
  }

  lemma {:induction false} SplicedRepeatsNonEmpty(b: Branch, k: nat)
    requires RepeatsNonEmpty(b)
    requires k < |Spliced(b.condition, b.branches)|
    ensures RepeatsNonEmpty(Spliced(b.condition, b.branches)[k])
  {
    SplicedFrom(b.condition, b.branches, k);
    var i :| 0 <= i < |b.branches| && ChildOrGrandchild(Spliced(b.condition, b.branches)[k], b.branches[i]);
    assert RepeatsNonEmpty(b.branches[i]);
  }

  /**
   * Sanitization keeps the number of leaves when every child that repeats
   * its parent's condition has children of its own; a repeating childless
   * child is dropped together with its leaf.
   */
  lemma {:induction false} SanitizeKeepsLeaves(b: Branch)
    requires RepeatsNonEmpty(b)
    ensures LeafCount(SanitizeBranch(b)) == LeafCount(b)
    decreases BSize(b)
  {
    var valid := Spliced(b.condition, b.branches);
    var r := SanitizeBranch(b);
    SplicedLeaves(b.condition, b.branches);
    forall k | 0 <= k < |valid|
      ensures LeafCount(r.branches[k]) == LeafCount(valid[k])
    {
      SplicedRepeatsNonEmpty(b, k);
      SanitizeKeepsLeaves(valid[k]);
    }
    LeafCountAllMapped(r.branches, valid);
    if b.branches != [] {
      assert valid != [] by {
        if valid == [] {
          assert LeafCountAll(b.branches) == 0;
          LeafCountPositive(b.branches);
        }
      }
    }
  }

  lemma {:induction false} LeafCountPositive(bs: seq<Branch>)
    requires bs != []
    ensures LeafCountAll(bs) >= 1
  {
    LeafCountOne(bs[0]);
  }

  lemma {:induction false} LeafCountOne(b: Branch)
    ensures LeafCount(b) >= 1
    decreases BSize(b)
  {
    if b.branches != [] {
      LeafCountOne(b.branches[0]);
    }
  }
}
