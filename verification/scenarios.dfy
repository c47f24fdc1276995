/**
 * Worked inputs for the extraction and sanitization stages, each stating the
 * exact forest the generator produces.
 */
module Scenarios {

  import opened Wrappers
  import opened Syntax
  import opened TestTree
  import opened Extraction
  import opened Sanitizer

  function Leaf(c: string): Branch { Branch(c, []) }

  /** The doc-comment example: `c1[c1[c2, !(c2)]]` sanitizes to `c1[c2, !(c2)]`. */
  lemma DocCommentExample()
    ensures SanitizeBranch(Branch("c1", [Branch("c1", [Leaf("c2"), Leaf("!(c2)")])])) ==
      Branch("c1", [Leaf("c2"), Leaf("!(c2)")])
  {
    var inner := [Leaf("c2"), Leaf("!(c2)")];
    var b := Branch("c1", [Branch("c1", inner)]);
    assert Spliced("c1", [Branch("c1", inner)]) == inner + Spliced("c1", []);
    assert SanitizeBranch(Leaf("c2")) == Leaf("c2");
    assert SanitizeBranch(Leaf("!(c2)")) == Leaf("!(c2)");
  }

  /** Sanitization is not idempotent: `a[a[a[x]]]` gives `a[a[x]]`, which gives `a[x]`. */
  lemma SanitizeNotIdempotent()
    ensures var t := Branch("a", [Branch("a", [Branch("a", [Leaf("x")])])]);
      SanitizeBranch(t) == Branch("a", [Branch("a", [Leaf("x")])]) &&
      SanitizeBranch(SanitizeBranch(t)) == Branch("a", [Leaf("x")])
  {
    var ax := Branch("a", [Leaf("x")]);
    assert Spliced("a", [Leaf("x")]) == [Leaf("x")] + Spliced("a", []);
    assert SanitizeBranch(Leaf("x")) == Leaf("x");
    assert SanitizeBranch(ax) == ax;
    assert Spliced("a", [Branch("a", [ax])]) == [ax] + Spliced("a", []);
    assert Spliced("a", [ax]) == [Leaf("x")] + Spliced("a", []);
  }

  /** A childless child repeating its parent's condition is dropped with its leaf: `a[a[], x[]]` gives `a[x[]]`. */
  lemma SanitizeDropsLeaf()
    ensures var t := Branch("a", [Leaf("a"), Leaf("x")]);
      SanitizeBranch(t) == Branch("a", [Leaf("x")]) &&
      LeafCount(t) == 2 && LeafCount(SanitizeBranch(t)) == 1
  {
    assert Spliced("a", [Leaf("x")]) == [Leaf("x")] + Spliced("a", []);
    assert Spliced("a", [Leaf("a"), Leaf("x")]) == [] + Spliced("a", [Leaf("x")]);
    assert SanitizeBranch(Leaf("x")) == Leaf("x");
    assert LeafCountAll([Leaf("x")]) == 1;
  }

  /** `if (C) {}` with no else: a then leaf and an implicit-else leaf. */
  lemma PlainIf(c: string)
    ensures DeepTraverseConditionals(If(c, Block([]), None)) == [Leaf(c), Leaf("!(" + c + ")")]
  {
    assert NestedIfs(Block([])) == [];
    assert DeepTraverseBlock(Block([]), c) == [];
  }

  /** `if (a) { if (b) {} }`: the raw forest and its sanitized form `a[b, !(b)], !(a)`. */
  lemma NestedIfExample()
    ensures var ifB := If("b", Block([]), None);
      var s := If("a", Block([ifB]), None);
      var raw := DeepTraverseConditionals(s);
      raw == [Branch("a", [Branch("a", [Leaf("b"), Leaf("!(b)")])]), Leaf("!(a)")] &&
      SanitizeBranch(raw[0]) == Branch("a", [Leaf("b"), Leaf("!(b)")]) &&
      SanitizeBranch(raw[1]) == Leaf("!(a)")
  {
    var ifB := If("b", Block([]), None);
    PlainIf("b");
    assert NestedIfs(Block([ifB])) == [ifB] by {
      assert IfBlockIfs(ifB, false, true) == [ifB] + IfBlockIfs(Block([]), true, false) + [];
      assert IfBlockIfsAll([ifB], true) == IfBlockIfs(ifB, false, true) + IfBlockIfsAll([], true);
    }
    var inner := [Leaf("b"), Leaf("!(b)")];
    assert "!(" + "b" + ")" == "!(b)";
    assert DeepTraverseConditionals(ifB) == inner;
    assert DeepTraverseBlock(Block([ifB]), "a") == [Branch("a", inner)];
    assert Negated("a") == "!(a)";
    assert Spliced("a", [Branch("a", inner)]) == inner + Spliced("a", []);
    assert SanitizeBranch(Leaf("b")) == Leaf("b");
    assert SanitizeBranch(Leaf("!(b)")) == Leaf("!(b)");
    assert SanitizeBranch(Leaf("!(a)")) == Leaf("!(a)");
  }

  /**
   * `if (a) {} else if (a) { if (b) {} }` extracts to `a`, then `!(a)`
   * holding the else-if's own forest `a[a[b, !(b)]], !(a)`.
   */
  lemma ElseIfSameConditionExtraction()
    ensures var ifB := If("b", Block([]), None);
      DeepTraverseConditionals(If("a", Block([]), Some(If("a", Block([ifB]), None)))) ==
        [Leaf("a"), Branch("!(a)", [Branch("a", [Branch("a", [Leaf("b"), Leaf("!(b)")])]), Leaf("!(a)")])]
  {
    NestedIfExample();
    assert NestedIfs(Block([])) == [];
    assert DeepTraverseBlock(Block([]), "a") == [];
    assert Negated("a") == "!(a)";
  }

  /**
   * Sanitizing that `!(a)` branch keeps the else-if's `a[b, !(b)]` branch
   * and drops the else-if's implicit else `!(a)`, which repeats its
   * parent's condition.
   */
  lemma ElseIfSameConditionSanitized()
    ensures SanitizeBranch(Branch("!(a)", [Branch("a", [Branch("a", [Leaf("b"), Leaf("!(b)")])]), Leaf("!(a)")])) ==
      Branch("!(a)", [Branch("a", [Leaf("b"), Leaf("!(b)")])])
  {
    var bs := [Leaf("b"), Leaf("!(b)")];
    var ab := Branch("a", [Branch("a", bs)]);
    assert Spliced("a", [Branch("a", bs)]) == bs + Spliced("a", []);
    assert SanitizeBranch(Leaf("b")) == Leaf("b");
    assert SanitizeBranch(Leaf("!(b)")) == Leaf("!(b)");
    assert SanitizeBranch(ab) == Branch("a", bs);
    assert Spliced("!(a)", [Leaf("!(a)")]) == [] + Spliced("!(a)", []);
    assert Spliced("!(a)", [ab, Leaf("!(a)")]) == [ab] + Spliced("!(a)", [Leaf("!(a)")]);
  }

  /** That sanitizing step turns three pending tests into two. */
  lemma ElseIfSameConditionLosesLeaf()
    ensures var t := Branch("!(a)", [Branch("a", [Branch("a", [Leaf("b"), Leaf("!(b)")])]), Leaf("!(a)")]);
      LeafCount(t) == 3 && LeafCount(SanitizeBranch(t)) == 2
  {
    var bs := [Leaf("b"), Leaf("!(b)")];
    var ab := Branch("a", [Branch("a", bs)]);
    ElseIfSameConditionSanitized();
    assert LeafCountAll(bs) == 2;
    assert LeafCountAll([Branch("a", bs)]) == LeafCount(Branch("a", bs)) + LeafCountAll([]);
    assert LeafCountAll([ab, Leaf("!(a)")]) == LeafCount(ab) + LeafCountAll([Leaf("!(a)")]);
  }

  /** `if (a) { for (...) { if (b) {} } }`: an `if` inside a loop is not a child of `a`. */
  lemma IfInLoopNotDescended()
    ensures var loop := Other([Block([If("b", Block([]), None)])]);
      DeepTraverseConditionals(If("a", Block([loop]), None)) == [Leaf("a"), Leaf("!(a)")]
  {
    var ifB := If("b", Block([]), None);
    var loop := Other([Block([ifB])]);
    assert IfBlockIfs(ifB, false, false) == [] + IfBlockIfs(Block([]), true, false) + [];
    assert IfBlockIfsAll([ifB], false) == IfBlockIfs(ifB, false, false) + IfBlockIfsAll([], false);
    assert IfBlockIfsAll([Block([ifB])], false) == IfBlockIfs(Block([ifB]), false, false) + IfBlockIfsAll([], false);
    assert IfBlockIfsAll([loop], true) == IfBlockIfs(loop, false, true) + IfBlockIfsAll([], true);
    assert NestedIfs(Block([loop])) == [];
    assert DeepTraverseBlock(Block([loop]), "a") == [];
    assert Negated("a") == "!(a)";
  }

  /**
   * `if (a) { if (b) { if (c) {} } }`: the selector also matches the `if`
   * two levels down, so `a` gets a second child carrying `c` and `!(c)`.
   */
  lemma DeepIfExtraction()
    ensures var ifC := If("c", Block([]), None);
      var ifB := If("b", Block([ifC]), None);
      var cs := [Leaf("c"), Leaf("!(c)")];
      DeepTraverseConditionals(If("a", Block([ifB]), None)) ==
        [Branch("a", [Branch("a", [Branch("b", [Branch("b", cs)]), Leaf("!(b)")]), Branch("a", cs)]), Leaf("!(a)")]
  {
    var ifC := If("c", Block([]), None);
    var ifB := If("b", Block([ifC]), None);
    var cs := [Leaf("c"), Leaf("!(c)")];
    PlainIf("c");
    assert "!(" + "c" + ")" == "!(c)";
    assert DeepTraverseConditionals(ifC) == cs;
    assert NestedIfs(Block([ifC])) == [ifC] by {
      assert IfBlockIfs(ifC, false, true) == [ifC] + IfBlockIfs(Block([]), true, false) + [];
      assert IfBlockIfsAll([ifC], true) == IfBlockIfs(ifC, false, true) + IfBlockIfsAll([], true);
    }
    assert DeepTraverseBlock(Block([ifC]), "b") == [Branch("b", cs)];
    assert Negated("b") == "!(b)";
    var bs := [Branch("b", [Branch("b", cs)]), Leaf("!(b)")];
    assert DeepTraverseConditionals(ifB) == bs;
    assert NestedIfs(Block([ifB])) == [ifB, ifC] by {
      assert IfBlockIfs(ifB, false, true) == [ifB] + IfBlockIfs(Block([ifC]), true, false) + [];
      assert IfBlockIfsAll([ifB], true) == IfBlockIfs(ifB, false, true) + IfBlockIfsAll([], true);
    }
    assert DeepTraverseBlock(Block([ifB]), "a") == [Branch("a", bs), Branch("a", cs)];
    assert Negated("a") == "!(a)";
  }

  /**
   * Sanitizing that `a` branch lifts both wrappers: `c` and `!(c)` then
   * appear both under `b` and directly under `a`.
   */
  lemma DeepIfSanitized()
    ensures var cs := [Leaf("c"), Leaf("!(c)")];
      SanitizeBranch(Branch("a", [Branch("a", [Branch("b", [Branch("b", cs)]), Leaf("!(b)")]), Branch("a", cs)])) ==
        Branch("a", [Branch("b", cs), Leaf("!(b)"), Leaf("c"), Leaf("!(c)")])
  {
    var cs := [Leaf("c"), Leaf("!(c)")];
    var bs := [Branch("b", [Branch("b", cs)]), Leaf("!(b)")];
    var kids := [Branch("a", bs), Branch("a", cs)];
    assert Spliced("a", [Branch("a", cs)]) == cs + Spliced("a", []);
    assert Spliced("a", kids) == bs + Spliced("a", [Branch("a", cs)]);
    assert Spliced("b", [Branch("b", cs)]) == cs + Spliced("b", []);
    assert SanitizeBranch(Leaf("c")) == Leaf("c");
    assert SanitizeBranch(Leaf("!(c)")) == Leaf("!(c)");
    assert SanitizeBranch(Leaf("!(b)")) == Leaf("!(b)");
    assert SanitizeBranch(Branch("b", [Branch("b", cs)])) == Branch("b", cs);
  }
}
