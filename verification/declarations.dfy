/**
 * The declarations the generator visits (methods, arrow functions, free
 * functions) and the handlers that turn each into a function record: its
 * name, visibility, whether it already has tests, and its branch forest,
 * which is left empty for a member whose visibility is not to be tested.
 */
module Declarations {

  import opened Wrappers
  import opened Syntax
  import opened TestTree
  import opened Configuration
  import Extraction
  import Sanitizer

  datatype Modifier = PrivateKeyword | ProtectedKeyword | PublicKeyword | OtherModifier

  datatype ParentKind = VariableDeclaration | PropertyDeclaration | OtherParent

  /**
   * A declaration with its body block's statements (empty when it has no
   * block body). An arrow function takes its name and modifiers from its
   * parent node.
   */
  datatype Declaration =
    | MethodDeclaration(name: string, modifiers: seq<Modifier>, body: seq<Stmt>)
    | ArrowFunction(parentKind: ParentKind, parentName: string, parentModifiers: seq<Modifier>, body: seq<Stmt>)
    | FunctionDeclaration(name: string, body: seq<Stmt>)

  /** The already-tested oracle: does the spec content hold a test group for this name? */
  type TestedOracle = (string, string) -> bool

  /** A member whose branches are not collected: private or protected with that visibility switched off. */
  predicate Gated(modifiers: seq<Modifier>, cfg: Settings) {
    (PrivateKeyword in modifiers && !cfg.testPrivate) ||
    (ProtectedKeyword in modifiers && !cfg.testProtected)
  }

  function HandleMethodDeclaration(d: Declaration, specContent: string, cfg: Settings, tested: TestedOracle): (r: FunctionToTest)
    requires d.MethodDeclaration?
    ensures r.name == d.name && r.isTested == tested(d.name, specContent)
    ensures r.isPrivate <==> PrivateKeyword in d.modifiers
    ensures PrivateKeyword in d.modifiers && !cfg.testPrivate ==> r.branches == []
    ensures ProtectedKeyword in d.modifiers && !cfg.testProtected ==> r.branches == []
    ensures !Gated(d.modifiers, cfg) ==> r.branches == Extraction.FindInFunction(d.body)
  {
    var isPrivate := PrivateKeyword in d.modifiers;
    var isProtected := ProtectedKeyword in d.modifiers;
    var branches :=
      if isPrivate && !cfg.testPrivate then []
      else if isProtected && !cfg.testProtected then []
      else Extraction.FindInFunction(d.body);
    FunctionToTest(d.name, isPrivate, tested(d.name, specContent), branches)
  }

  /** Only an arrow function bound by a variable or property declaration yields a record. */
  function HandleArrowFunction(d: Declaration, specContent: string, cfg: Settings, tested: TestedOracle): (r: Option<FunctionToTest>)
    requires d.ArrowFunction?
    ensures r.None? <==> d.parentKind == OtherParent
    ensures r.Some? ==> r.value.name == d.parentName && r.value.isTested == tested(d.parentName, specContent)
    ensures r.Some? ==> (r.value.isPrivate <==> PrivateKeyword in d.parentModifiers)
    ensures r.Some? && Gated(d.parentModifiers, cfg) ==> r.value.branches == []
    ensures r.Some? && !Gated(d.parentModifiers, cfg) ==> r.value.branches == Extraction.FindInFunction(d.body)
  {
    if d.parentKind == OtherParent then None
    else
      var isPrivate := PrivateKeyword in d.parentModifiers;
      var isProtected := ProtectedKeyword in d.parentModifiers;
      var branches :=
        if isPrivate && !cfg.testPrivate then []
        else if isProtected && !cfg.testProtected then []
        else Extraction.FindInFunction(d.body);
      Some(FunctionToTest(d.parentName, isPrivate, tested(d.parentName, specContent), branches))
  }

  /** A free function is never private and always has its branches collected. */
  function HandleFunctionDeclaration(d: Declaration, specContent: string, tested: TestedOracle): (r: FunctionToTest)
    requires d.FunctionDeclaration?
    ensures r.name == d.name && r.isTested == tested(d.name, specContent)
    ensures !r.isPrivate
    ensures r.branches == Extraction.FindInFunction(d.body)
    ensures r.branches == [] <==> forall k :: 0 <= k < |d.body| ==> !d.body[k].If?
  {
    FunctionToTest(d.name, false, tested(d.name, specContent), Extraction.FindInFunction(d.body))
  }

  /** The handler for the declaration's kind; only a dropped arrow function yields no record. */
  function Handle(d: Declaration, specContent: string, cfg: Settings, tested: TestedOracle): (r: Option<FunctionToTest>)
    ensures r.None? <==> Dropped(d)
    ensures r.Some? ==> r.value.name == DeclName(d) && r.value.isTested == tested(DeclName(d), specContent)
    ensures r.Some? ==> (r.value.isPrivate <==> PrivateKeyword in DeclModifiers(d))
  {
    match d
    case MethodDeclaration(_, _, _) => Some(HandleMethodDeclaration(d, specContent, cfg, tested))
    case ArrowFunction(_, _, _, _) => HandleArrowFunction(d, specContent, cfg, tested)
    case FunctionDeclaration(_, _) => Some(HandleFunctionDeclaration(d, specContent, tested))
  }

  function SanitizeForest(bs: seq<Branch>): (r: seq<Branch>)
    ensures |r| == |bs|
    ensures forall k :: 0 <= k < |r| ==> r[k].condition == bs[k].condition
  {
    seq(|bs|, k requires 0 <= k < |bs| => Sanitizer.SanitizeBranch(bs[k]))
  }

  /** A declaration that yields no record: an arrow function outside a declaration. */
  predicate Dropped(d: Declaration) {
    d.ArrowFunction? && d.parentKind == OtherParent
  }

  /** The modifiers that decide a declaration's visibility; a free function has none. */
  function DeclModifiers(d: Declaration): seq<Modifier> {
    match d
    case MethodDeclaration(_, modifiers, _) => modifiers
    case ArrowFunction(_, _, parentModifiers, _) => parentModifiers
    case FunctionDeclaration(_, _) => []
  }

  /** The name under which a declaration's record is filed. */
  function DeclName(d: Declaration): string {
    match d
    case MethodDeclaration(name, _, _) => name
    case ArrowFunction(_, name, _, _) => name
    case FunctionDeclaration(name, _) => name
  }

  /**
   * The record a kept declaration contributes to the file tree: its handled
   * record with every root of its forest sanitized. Its name, privacy and
   * tested flag come from the declaration alone; its forest is empty when
   * its visibility is switched off and is otherwise the sanitized forest of
   * its body.
   */
  function Record(d: Declaration, specContent: string, cfg: Settings, tested: TestedOracle): (r: FunctionToTest)
    requires !Dropped(d)
    ensures r.name == DeclName(d) && r.isTested == tested(DeclName(d), specContent)
    ensures r.isPrivate <==> PrivateKeyword in DeclModifiers(d)
    ensures !d.FunctionDeclaration? && Gated(DeclModifiers(d), cfg) ==> r.branches == []
    ensures d.FunctionDeclaration? || !Gated(DeclModifiers(d), cfg) ==>
      r.branches == SanitizeForest(Extraction.FindInFunction(d.body))
  {
    var fn := Handle(d, specContent, cfg, tested).value;
    fn.(branches := SanitizeForest(fn.branches))
  }

  /** What one declaration contributes to the file tree: its record, or nothing when it is dropped. */
  function Contribution(d: Declaration, specContent: string, cfg: Settings, tested: TestedOracle): (r: seq<FunctionToTest>)
    ensures r == [] <==> Dropped(d)
    ensures !Dropped(d) ==> r == [Record(d, specContent, cfg, tested)]
  {
    if Dropped(d) then [] else [Record(d, specContent, cfg, tested)]
  }

  /**
   * The records of a file's declarations, in order, with each forest
   * sanitized; an arrow function outside a variable or property declaration
   * yields none.
   */
  function GetTestTreeForFile(decls: seq<Declaration>, specContent: string, cfg: Settings, tested: TestedOracle): (r: seq<FunctionToTest>)
    ensures |r| <= |decls|
    ensures r == [] <==> forall k :: 0 <= k < |decls| ==> Dropped(decls[k])
  {
    if decls == [] then []
    else
      var head := Contribution(decls[0], specContent, cfg, tested);
      var rest := GetTestTreeForFile(decls[1..], specContent, cfg, tested);
      assert forall k :: 1 <= k < |decls| ==> decls[k] == decls[1..][k - 1];
      head + rest
  }

  /** One declaration contributes its record, or nothing when it is dropped. */
  lemma GetTestTreeForFileOne(d: Declaration, specContent: string, cfg: Settings, tested: TestedOracle)
    ensures GetTestTreeForFile([d], specContent, cfg, tested) ==
      if Dropped(d) then [] else [Record(d, specContent, cfg, tested)]
  {
    assert [d][1..] == [];
  }

  /** The tree of consecutive declaration lists is the concatenation of their trees: records keep declaration order. */
  lemma {:induction false} GetTestTreeForFileAppend(xs: seq<Declaration>, ys: seq<Declaration>, specContent: string, cfg: Settings, tested: TestedOracle)
    ensures GetTestTreeForFile(xs + ys, specContent, cfg, tested) ==
      GetTestTreeForFile(xs, specContent, cfg, tested) + GetTestTreeForFile(ys, specContent, cfg, tested)
  {
    if xs == [] {
      assert xs + ys == ys;
    } else {
      assert (xs + ys)[1..] == xs[1..] + ys;
      GetTestTreeForFileAppend(xs[1..], ys, specContent, cfg, tested);
    }
  }

  /** A record is in the file tree exactly when it is the record of a kept declaration. */
  lemma {:induction false} GetTestTreeForFileMembers(decls: seq<Declaration>, specContent: string, cfg: Settings, tested: TestedOracle, fn: FunctionToTest)
    ensures fn in GetTestTreeForFile(decls, specContent, cfg, tested) <==>
      exists k :: 0 <= k < |decls| && !Dropped(decls[k]) && fn == Record(decls[k], specContent, cfg, tested)
  {
    if decls != [] {
      GetTestTreeForFileMembers(decls[1..], specContent, cfg, tested, fn);
      assert forall k :: 1 <= k < |decls| ==> decls[k] == decls[1..][k - 1];
      if exists k :: 0 <= k < |decls| && !Dropped(decls[k]) && fn == Record(decls[k], specContent, cfg, tested) {
        var k :| 0 <= k < |decls| && !Dropped(decls[k]) && fn == Record(decls[k], specContent, cfg, tested);
        if k > 0 {
          assert decls[1..][k - 1] == decls[k];
        }
      }
    }
  }
}
