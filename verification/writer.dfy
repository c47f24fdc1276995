/**
 * Filtering and appending: the records of a file that are neither already
 * tested nor hidden private members are rendered, and their blocks are
 * appended to the existing spec content; a write is due only when the
 * content changed.
 */
module Writer {

  import opened Wrappers
  import opened Text
  import opened TestTree
  import opened Configuration
  import opened Rendering
  import opened Declarations

  predicate ApplySkippedTestsFilter(fn: FunctionToTest) {
    !fn.isTested
  }

  predicate ApplyPrivateTestsFilter(fn: FunctionToTest, testPrivate: bool) {
    testPrivate || !fn.isPrivate
  }

  /** A record that gets rendered: not already tested, and not private unless private members are tested. */
  predicate Survives(fn: FunctionToTest, testPrivate: bool) {
    ApplySkippedTestsFilter(fn) && ApplyPrivateTestsFilter(fn, testPrivate)
  }

  function SkipTested(tree: seq<FunctionToTest>): (r: seq<FunctionToTest>)
    ensures |r| <= |tree|
    ensures forall fn :: fn in r <==> fn in tree && !fn.isTested
  {
    if tree == [] then []
    else (if ApplySkippedTestsFilter(tree[0]) then [tree[0]] else []) + SkipTested(tree[1..])
  }

  function SkipPrivate(tree: seq<FunctionToTest>, testPrivate: bool): (r: seq<FunctionToTest>)
    ensures |r| <= |tree|
    ensures forall fn :: fn in r <==> fn in tree && (testPrivate || !fn.isPrivate)
  {
    if tree == [] then []
    else (if ApplyPrivateTestsFilter(tree[0], testPrivate) then [tree[0]] else []) + SkipPrivate(tree[1..], testPrivate)
  }

  /** The records that pass both filters, in tree order. */
  function Survivors(tree: seq<FunctionToTest>, testPrivate: bool): (r: seq<FunctionToTest>)
    ensures forall fn :: fn in r <==> fn in tree && Survives(fn, testPrivate)
    ensures r == [] <==> forall k :: 0 <= k < |tree| ==> !Survives(tree[k], testPrivate)
  {
    var r := SkipPrivate(SkipTested(tree), testPrivate);
    assert r != [] ==> r[0] in r;
    assert forall k :: 0 <= k < |tree| ==> tree[k] in tree;
    r
  }

  /** The skip-tested filter works record by record: it keeps order and multiplicity. */
  lemma {:induction false} SkipTestedLaws(xs: seq<FunctionToTest>, ys: seq<FunctionToTest>, fn: FunctionToTest)
    ensures SkipTested(xs + ys) == SkipTested(xs) + SkipTested(ys)
    ensures SkipTested([fn]) == if !fn.isTested then [fn] else []
  {
    assert [fn][1..] == [];
    if xs == [] {
      assert xs + ys == ys;
    } else {
      assert (xs + ys)[1..] == xs[1..] + ys;
      SkipTestedLaws(xs[1..], ys, fn);
    }
  }

  /** The private filter works record by record: it keeps order and multiplicity. */
  lemma {:induction false} SkipPrivateLaws(xs: seq<FunctionToTest>, ys: seq<FunctionToTest>, fn: FunctionToTest, testPrivate: bool)
    ensures SkipPrivate(xs + ys, testPrivate) == SkipPrivate(xs, testPrivate) + SkipPrivate(ys, testPrivate)
    ensures SkipPrivate([fn], testPrivate) == if testPrivate || !fn.isPrivate then [fn] else []
  {
    assert [fn][1..] == [];
    if xs == [] {
      assert xs + ys == ys;
    } else {
      assert (xs + ys)[1..] == xs[1..] + ys;
      SkipPrivateLaws(xs[1..], ys, fn, testPrivate);
    }
  }

  /** Both filters together keep each surviving record in place and drop the others. */
  lemma SurvivorsLaws(xs: seq<FunctionToTest>, ys: seq<FunctionToTest>, fn: FunctionToTest, testPrivate: bool)
    ensures Survivors(xs + ys, testPrivate) == Survivors(xs, testPrivate) + Survivors(ys, testPrivate)
    ensures Survivors([fn], testPrivate) == if Survives(fn, testPrivate) then [fn] else []
  {
    SkipTestedLaws(xs, ys, fn);
    SkipPrivateLaws(SkipTested(xs), SkipTested(ys), fn, testPrivate);
    SkipPrivateLaws([], [], fn, testPrivate);
  }

  /** The rendered blocks of `fns`, in order. */
  function RenderAll(fns: seq<FunctionToTest>, cfg: Settings): (r: string)
    ensures r == "" <==> fns == []
  {
    if fns == [] then ""
    else
      var last := IndentedTestForFunction(fns[|fns| - 1], cfg);
      assert |DescribeOpen("", fns[|fns| - 1].name)| > 0;
      RenderAll(fns[..|fns| - 1], cfg) + last
  }

  lemma AppendAssoc(a: string, b: string, c: string)
    ensures (a + b) + c == a + (b + c)
  {
  }

  lemma RenderAllSnoc(fns: seq<FunctionToTest>, i: nat, cfg: Settings)
    requires i < |fns|
    ensures RenderAll(fns[..i + 1], cfg) == RenderAll(fns[..i], cfg) + IndentedTestForFunction(fns[i], cfg)
  {
    assert fns[..i + 1][..i] == fns[..i];
  }

  /**
   * The new content of the spec file: the old content followed by the
   * rendered blocks of the surviving records, in tree order; a write is due
   * exactly when some record survives.
   */
  method WriteTestTreeToFile(tree: seq<FunctionToTest>, specContent: string, cfg: Settings)
    returns (newSpecContent: string, write: bool)
    ensures newSpecContent == specContent + RenderAll(Survivors(tree, cfg.testPrivate), cfg)
    ensures specContent <= newSpecContent
    ensures write <==> newSpecContent != specContent
    ensures write <==> exists k :: 0 <= k < |tree| && Survives(tree[k], cfg.testPrivate)
  {
    newSpecContent := specContent;
    var survivors := SkipPrivate(SkipTested(tree), cfg.testPrivate);
    var i := 0;
    while i < |survivors|
      invariant 0 <= i <= |survivors|
      invariant newSpecContent == specContent + RenderAll(survivors[..i], cfg)
    {
      var block := IndentedTestForFunction(survivors[i], cfg);
      var done := RenderAll(survivors[..i], cfg);
      RenderAllSnoc(survivors, i, cfg);
      AppendAssoc(specContent, done, block);
      newSpecContent := newSpecContent + block;
      i := i + 1;
    }
    assert survivors[..i] == survivors;
    assert survivors == Survivors(tree, cfg.testPrivate);
    write := specContent != newSpecContent;
    assert newSpecContent[..|specContent|] == specContent;
  }

  /** A record flagged as already tested contributes no block. */
  lemma TestedNeverRendered(tree: seq<FunctionToTest>, testPrivate: bool, fn: FunctionToTest)
    requires fn.isTested
    ensures fn !in Survivors(tree, testPrivate)
  {
  }

  /** An untested private record is rendered if and only if private members are tested. */
  lemma PrivateRenderedIff(tree: seq<FunctionToTest>, testPrivate: bool, fn: FunctionToTest)
    requires fn in tree && fn.isPrivate && !fn.isTested
    ensures fn in Survivors(tree, testPrivate) <==> testPrivate
  {
  }

  /**
   * A protected method with protected testing off keeps an empty forest but
   * is not filtered at writing: when untested it is rendered as a block with
   * a single placeholder.
   */
  lemma ProtectedStillRendered(d: Declaration, specContent: string, cfg: Settings, tested: TestedOracle)
    requires d.MethodDeclaration? && ProtectedKeyword in d.modifiers && PrivateKeyword !in d.modifiers
    requires !cfg.testProtected && !tested(d.name, specContent)
    ensures var fn := HandleMethodDeclaration(d, specContent, cfg, tested);
      Survives(fn, cfg.testPrivate) &&
      IndentedTestForFunction(fn, cfg) ==
        DescribeOpen("", d.name) + IndentedTestString(cfg.spacer, cfg) + DescribeClose("") &&
      PendingCount(FunctionOutline(fn)) == 1
  {
    var fn := HandleMethodDeclaration(d, specContent, cfg, tested);
    FunctionPendingCount(fn);
  }

  /** The spec file of `foo.ts` is `foo.spec.ts`: the first `.ts` is replaced. */
  function SpecFilePath(filePath: string): (r: string)
    ensures ReplaceFirst(r, ".spec.ts", ".ts") == filePath
  {
    SpecTsRoundTrip(filePath);
    ReplaceFirst(filePath, ".ts", ".spec.ts")
  }

  /** Differing at one position inside the window rules out an occurrence. */
  lemma MismatchAt(s: string, pat: string, j: nat, m: nat)
    requires j + |pat| <= |s| && m < |pat| && s[j + m] != pat[m]
    ensures !OccursAt(s, pat, j)
  {
    assert s[j..j + |pat|][m] == s[j + m];
  }

  /** No `.spec.ts` occurs where `.ts` does not occur five characters later. */
  lemma NoSpecWithoutTs(s: string, j: nat)
    requires j + 8 <= |s| && !OccursAt(s, ".ts", j + 5)
    ensures !OccursAt(s, ".spec.ts", j)
  {
    assert s[j + 5..j + 8] != ".ts";
    if s[j + 5] != '.' {
      MismatchAt(s, ".spec.ts", j, 5);
    } else if s[j + 6] != 't' {
      MismatchAt(s, ".spec.ts", j, 6);
    } else {
      assert s[j + 7] != 's';
      MismatchAt(s, ".spec.ts", j, 7);
    }
  }

  /** Before the inserted `.spec.ts`, the spec path holds no other `.spec.ts`. */
  lemma NoSpecBefore(p: string, k: nat, j: nat)
    requires k + 3 <= |p| && j < k
    requires forall i :: 0 <= i < k ==> !OccursAt(p, ".ts", i)
    ensures !OccursAt(p[..k] + ".spec.ts" + p[k + 3..], ".spec.ts", j)
  {
    var r := p[..k] + ".spec.ts" + p[k + 3..];
    if j + 8 <= k {
      assert r[j + 5..j + 8] == p[j + 5..j + 8];
      assert !OccursAt(p, ".ts", j + 5);
      NoSpecWithoutTs(r, j);
    } else if k - j != 5 {
      assert r[k] == '.';
      MismatchAt(r, ".spec.ts", j, k - j);
    } else {
      assert r[k + 1] == 's';
      MismatchAt(r, ".spec.ts", j, 6);
    }
  }

  /** A path without `.ts` holds no `.spec.ts` either, so both directions leave it alone. */
  lemma SpecTsRoundTripNoTs(p: string)
    requires forall j :: 0 <= j <= |p| ==> !OccursAt(p, ".ts", j)
    ensures ReplaceFirst(ReplaceFirst(p, ".ts", ".spec.ts"), ".spec.ts", ".ts") == p
  {
    assert ReplaceFirst(p, ".ts", ".spec.ts") == p;
    forall j | 0 <= j <= |p| ensures !OccursAt(p, ".spec.ts", j) {
      if j + 8 <= |p| {
        NoSpecWithoutTs(p, j);
      }
    }
  }

  /** Inserting `.spec` before the `.ts` at `k` puts `.spec.ts` at `k`, and turning it back gives the path. */
  lemma InsertSpecAt(p: string, k: nat)
    requires OccursAt(p, ".ts", k)
    ensures var r := p[..k] + ".spec.ts" + p[k + 3..];
      OccursAt(r, ".spec.ts", k) && r[..k] + ".ts" + r[k + 8..] == p
  {
    var r := p[..k] + ".spec.ts" + p[k + 3..];
    assert r[k..k + 8] == ".spec.ts";
    assert r[..k] == p[..k] && r[k + 8..] == p[k + 3..];
    assert p == p[..k] + p[k..k + 3] + p[k + 3..];
  }

  /** With a first `.ts` at `k`, the first `.spec.ts` of the spec path is the inserted one. */
  lemma SpecTsRoundTripAt(p: string, k: nat)
    requires OccursAt(p, ".ts", k)
    requires forall i :: 0 <= i < k ==> !OccursAt(p, ".ts", i)
    ensures ReplaceFirst(ReplaceFirst(p, ".ts", ".spec.ts"), ".spec.ts", ".ts") == p
  {
    var r := p[..k] + ".spec.ts" + p[k + 3..];
    InsertSpecAt(p, k);
    forall j | 0 <= j < k ensures !OccursAt(r, ".spec.ts", j) {
      NoSpecBefore(p, k, j);
    }
  }

  /** Turning the first `.ts` into `.spec.ts` is undone by turning the first `.spec.ts` back into `.ts`. */
  lemma SpecTsRoundTrip(filePath: string)
    ensures ReplaceFirst(ReplaceFirst(filePath, ".ts", ".spec.ts"), ".spec.ts", ".ts") == filePath
  {
    match IndexOf(filePath, ".ts", 0)
    case None =>
      SpecTsRoundTripNoTs(filePath);
    case Some(k) =>
      SpecTsRoundTripAt(filePath, k);
  }

  lemma NotAt(s: string, pat: string, j: nat)
    requires |pat| > 0 && j < |s| && s[j] != pat[0]
    ensures !OccursAt(s, pat, j)
  {
  }

  /** A path ending in `.ts` with no earlier `.` maps to its `.spec.ts` sibling. */
  lemma SpecFilePathPlain()
    ensures SpecFilePath("src/a.ts") == "src/a.spec.ts"
  {
    var p := "src/a.ts";
    assert OccursAt(p, ".ts", 5);
    forall j | 0 <= j < 5 ensures !OccursAt(p, ".ts", j) {
      NotAt(p, ".ts", j);
    }
    assert p[..5] + ".spec.ts" + p[8..] == "src/a.spec.ts";
  }

  /** Only the first `.ts` of a path is replaced, even when it is not the extension. */
  lemma SpecFilePathFirstOnly()
    ensures SpecFilePath("src/x.tsutil/a.ts") == "src/x.spec.tsutil/a.ts"
  {
    var p := "src/x.tsutil/a.ts";
    assert OccursAt(p, ".ts", 5);
    forall j | 0 <= j < 5 ensures !OccursAt(p, ".ts", j) {
      NotAt(p, ".ts", j);
    }
    assert p[..5] + ".spec.ts" + p[8..] == "src/x.spec.tsutil/a.ts";
  }

  /**
   * One source file: the new spec content and whether to write it. An absent
   * spec file counts as empty content; a file with no records is not written.
   */
  method GenerateTestsForFile(
    filePath: string, decls: seq<Declaration>, existingSpec: Option<string>,
    cfg: Settings, tested: TestedOracle)
    returns (specFilePath: string, newSpecContent: string, write: bool)
    ensures specFilePath == SpecFilePath(filePath)
    ensures var specContent := if existingSpec.Some? then existingSpec.value else "";
      var tree := GetTestTreeForFile(decls, specContent, cfg, tested);
      newSpecContent == specContent + RenderAll(Survivors(tree, cfg.testPrivate), cfg) &&
      (write <==> Survivors(tree, cfg.testPrivate) != [])
  {
    specFilePath := SpecFilePath(filePath);
    var specContent := if existingSpec.Some? then existingSpec.value else "";
    var tree := GetTestTreeForFile(decls, specContent, cfg, tested);
    newSpecContent, write := specContent, false;
    if |tree| > 0 {
      newSpecContent, write := WriteTestTreeToFile(tree, specContent, cfg);
    }
  }

  /** An oracle that keeps finding a test group once more text is appended to the spec content. */
  ghost predicate KeepsFinding(tested: TestedOracle) {
    forall name: string, content: string, more: string :: tested(name, content) ==> tested(name, content + more)
  }

  /** An oracle that finds a record's name in any content holding that record's rendered block. */
  ghost predicate FindsBlocks(tested: TestedOracle, cfg: Settings) {
    forall fn: FunctionToTest, before: string, after: string ::
      tested(fn.name, before + IndentedTestForFunction(fn, cfg) + after)
  }

  lemma FindsBlockAt(tested: TestedOracle, cfg: Settings, fn: FunctionToTest, before: string, after: string)
    requires FindsBlocks(tested, cfg)
    ensures tested(fn.name, before + IndentedTestForFunction(fn, cfg) + after)
  {
  }

  lemma KeepsFindingAt(tested: TestedOracle, name: string, content: string, more: string)
    requires KeepsFinding(tested) && tested(name, content)
    ensures tested(name, content + more)
  {
  }

  /** Once the blocks of `fns` are appended, the oracle finds every record of `fns`. */
  lemma {:induction false} RenderedFound(fns: seq<FunctionToTest>, j: nat, content: string, cfg: Settings, tested: TestedOracle)
    requires KeepsFinding(tested) && FindsBlocks(tested, cfg)
    requires j < |fns|
    ensures tested(fns[j].name, content + RenderAll(fns, cfg))
    decreases |fns|
  {
    var i := |fns| - 1;
    var init := fns[..i];
    var block := IndentedTestForFunction(fns[i], cfg);
    var prefix := content + RenderAll(init, cfg);
    RenderAllSnoc(fns, i, cfg);
    assert fns[..i + 1] == fns;
    AppendAssoc(content, RenderAll(init, cfg), block);
    if j == i {
      FindsBlockAt(tested, cfg, fns[j], prefix, "");
      assert prefix + block + "" == prefix + block;
    } else {
      RenderedFound(init, j, content, cfg, tested);
      KeepsFindingAt(tested, fns[j].name, prefix, block);
    }
  }

  /**
   * A kept declaration's record does not survive a rerun on extended content
   * when the oracle finds its name there in case it survived the first run.
   */
  lemma RecordSettled(d: Declaration, specContent: string, more: string, cfg: Settings, tested: TestedOracle)
    requires KeepsFinding(tested) && !Dropped(d)
    requires Survives(Record(d, specContent, cfg, tested), cfg.testPrivate) ==> tested(DeclName(d), specContent + more)
    ensures !Survives(Record(d, specContent + more, cfg, tested), cfg.testPrivate)
  {
    if tested(DeclName(d), specContent) {
      KeepsFindingAt(tested, DeclName(d), specContent, more);
    }
  }

  /**
   * Running the generator a second time on the spec content the first run
   * produced renders nothing, so nothing is written: every record either was
   * tested already, is a private record still hidden, or had its block
   * appended by the first run, where the oracle now finds it.
   */
  lemma RerunWritesNothing(decls: seq<Declaration>, specContent: string, cfg: Settings, tested: TestedOracle)
    requires KeepsFinding(tested) && FindsBlocks(tested, cfg)
    ensures var first := Survivors(GetTestTreeForFile(decls, specContent, cfg, tested), cfg.testPrivate);
      var rerun := specContent + RenderAll(first, cfg);
      Survivors(GetTestTreeForFile(decls, rerun, cfg, tested), cfg.testPrivate) == []
  {
    var tree1 := GetTestTreeForFile(decls, specContent, cfg, tested);
    var first := Survivors(tree1, cfg.testPrivate);
    var more := RenderAll(first, cfg);
    var tree2 := GetTestTreeForFile(decls, specContent + more, cfg, tested);
    forall i | 0 <= i < |tree2|
      ensures !Survives(tree2[i], cfg.testPrivate)
    {
      GetTestTreeForFileMembers(decls, specContent + more, cfg, tested, tree2[i]);
      var k :| 0 <= k < |decls| && !Dropped(decls[k]) && tree2[i] == Record(decls[k], specContent + more, cfg, tested);
      var fn1 := Record(decls[k], specContent, cfg, tested);
      if Survives(fn1, cfg.testPrivate) {
        GetTestTreeForFileMembers(decls, specContent, cfg, tested, fn1);
        assert fn1 in first;
        var j :| 0 <= j < |first| && first[j] == fn1;
        RenderedFound(first, j, specContent, cfg, tested);
      }
      RecordSettled(decls[k], specContent, more, cfg, tested);
    }
  }
}
