/**
 * The tree segmenter: a recursive walk over the syntax tree that threads the open paragraph and
 * a code-mode flag, and produces the document's paragraphs.
 */
module Preprocessor {
  import opened Syntax
  import opened ParagraphText

  /** The six ways a node is treated, given its kind and whether the walk is in code mode. */
  datatype Treatment =
    | Descend(childCodeMode: bool)  // visit the children only, with this code mode
    | Seal                          // paragraph break
    | Substitute                    // placeholder in place of the node, children not visited
    | Skip                          // node and subtree ignored
    | Whitespace                    // recorded only inside a non-empty paragraph
    | Record                        // recorded when its text is not empty

  /** The kinds whose whole subtree is ignored outside code mode. */
  predicate IsSkipped(kind: SyntaxKind) {
    kind.Hash? || kind.Label? || kind.ModuleImport? || kind.ModuleInclude? || kind.LineComment?
    || kind.BlockComment? || kind.Ident? || kind.Underscore? || kind.Star?
  }

  /** The kinds that switch code mode on for their descendants. */
  predicate EntersCodeMode(kind: SyntaxKind) {
    kind.FuncCall? || kind.ShowRule? || kind.SetRule? || kind.LetBinding?
  }

  function Classify(kind: SyntaxKind, codeMode: bool): Treatment {
    if codeMode then Descend(!kind.Markup?)
    else if kind.Parbreak? then Seal
    else if IsSubstituted(kind) then Substitute
    else if IsSkipped(kind) then Skip
    else if EntersCodeMode(kind) then Descend(true)
    else if kind.Space? then Whitespace
    else Record
  }

  /** The sealed paragraphs produced so far and the paragraph still open. */
  datatype Walk = Walk(sealed: seq<Paragraph>, open: Paragraph)

  function Append(p: Paragraph, f: Fragment): Paragraph {
    Paragraph(p.nodes + [f])
  }

  /**
   * `recursively_build_paragraphs(node, current, code_mode)`: the paragraphs sealed inside the
   * subtree and the paragraph left open after it.
   */
  function Build(node: SyntaxNode, current: Paragraph, codeMode: bool): Walk
    decreases node, |node.children| + 1
  {
    match Classify(node.kind, codeMode)
    case Descend(childCodeMode) =>
      BuildChildren(node, 0, Walk([], current), childCodeMode)
    case Seal =>
      BuildChildren(node, 0, if current.nodes != [] then Walk([current], Paragraph([])) else Walk([], current), false)
    case Substitute =>
      Walk([], if current.nodes != [] then Append(current, Placeholder(node)) else current)
    case Skip =>
      Walk([], current)
    case Whitespace =>
      if node.text == [] then BuildChildren(node, 0, Walk([], current), false)
      else if current.nodes == [] then Walk([], current)
      else BuildChildren(node, 0, Walk([], Append(current, LeafOf(node))), false)
    case Record =>
      BuildChildren(node, 0, Walk([], if node.text == [] then current else Append(current, LeafOf(node))), false)
  }

  /**
   * The loop over the children from child `i` on: each child continues the open paragraph and
   * its sealed paragraphs are appended to those of `acc`; every child gets the same code mode.
   */
  function BuildChildren(node: SyntaxNode, i: nat, acc: Walk, codeMode: bool): Walk
    requires i <= |node.children|
    decreases node, |node.children| - i
  {
    if i == |node.children| then acc
    else
      var w := Build(node.children[i], acc.open, codeMode);
      BuildChildren(node, i + 1, Walk(acc.sealed + w.sealed, w.open), codeMode)
  }

  /** `preprocess`: walk from the root with an empty paragraph; keep the last one if non-empty. */
  function Segment(root: SyntaxNode): seq<Paragraph> {
    var w := Build(root, Paragraph([]), false);
    if w.open.nodes != [] then w.sealed + [w.open] else w.sealed
  }

  /** The walk as the source writes it, with mutable locals and a loop over the children. */
  method RecursivelyBuildParagraphs(node: SyntaxNode, currentParagraph: Paragraph, codeModeIn: bool)
    returns (paragraphs: seq<Paragraph>, current: Paragraph)
    ensures Walk(paragraphs, current) == Build(node, currentParagraph, codeModeIn)
    decreases node
  {
    paragraphs := [];
    current := currentParagraph;
    var codeMode := codeModeIn;

    if codeMode {
      if node.kind == Markup {
        codeMode := false;
      }
    } else {
      match node.kind
      case Parbreak =>
        if current.nodes != [] {
          paragraphs := paragraphs + [current];
          current := Paragraph([]);
          assert paragraphs == [currentParagraph];
          assert Build(node, currentParagraph, codeModeIn) == BuildChildren(node, 0, Walk([currentParagraph], Paragraph([])), false);
        }
      case Raw | Equation | FieldAccess =>
        if current.nodes != [] {
          current := Paragraph(current.nodes + [Placeholder(node)]);
        }
        return;
      case Hash | Label | ModuleImport | ModuleInclude | LineComment | BlockComment | Ident | Underscore | Star =>
        return;
      case FuncCall | ShowRule | SetRule | LetBinding =>
        codeMode := true;
      case Space =>
        if node.text != [] {
          if current.nodes == [] {
            paragraphs := [];
            return;
          } else {
            current := Paragraph(current.nodes + [LeafOf(node)]);
          }
        }
      case _ =>
        if node.text != [] {
          current := Paragraph(current.nodes + [LeafOf(node)]);
        }
    }

    for i := 0 to |node.children|
      invariant BuildChildren(node, i, Walk(paragraphs, current), codeMode) == Build(node, currentParagraph, codeModeIn)
    {
      ghost var before := Walk(paragraphs, current);
      var childGroups, newCurrentGroup := RecursivelyBuildParagraphs(node.children[i], current, codeMode);
      if childGroups != [] {
        paragraphs := paragraphs + childGroups;
      }
      current := newCurrentGroup;
      assert paragraphs == before.sealed + childGroups;
    }
  }

  /** `preprocess`. */
  method Preprocess(root: SyntaxNode) returns (paragraphs: seq<Paragraph>)
    ensures paragraphs == Segment(root)
  {
    var partialParagraph;
    paragraphs, partialParagraph := RecursivelyBuildParagraphs(root, Paragraph([]), false);
    if partialParagraph.nodes != [] {
      paragraphs := paragraphs + [partialParagraph];
    }
  }

  // ---------------------------------------------------------------------------------------------
  // What every paragraph looks like

  /**
   * A paragraph under construction: no fragment is a paragraph break, every fragment has
   * text, and it does not start with whitespace.
   */
  predicate WellFormed(p: Paragraph) {
    (forall j | 0 <= j < |p.nodes| :: !p.nodes[j].kind.Parbreak? && p.nodes[j].text != [])
    && (p.nodes != [] ==> !p.nodes[0].kind.Space?)
  }

  /** Sealed paragraphs: well formed and not empty. */
  predicate AllSealed(ps: seq<Paragraph>) {
    forall k | 0 <= k < |ps| :: ps[k].nodes != [] && WellFormed(ps[k])
  }

  lemma AppendKeepsWellFormed(p: Paragraph, f: Fragment)
    requires WellFormed(p) && !f.kind.Parbreak? && f.text != []
    requires p.nodes == [] ==> !f.kind.Space?
    ensures WellFormed(Append(p, f))
  {
    assert forall j | 0 <= j < |p.nodes| :: Append(p, f).nodes[j] == p.nodes[j];
  }

  /** Walking a subtree from a well-formed open paragraph seals only non-empty, well-formed ones. */
  lemma {:induction false} BuildKeepsWellFormed(node: SyntaxNode, current: Paragraph, codeMode: bool)
    requires WellFormed(current)
    ensures AllSealed(Build(node, current, codeMode).sealed)
    ensures WellFormed(Build(node, current, codeMode).open)
    decreases node, |node.children| + 1
  {
    match Classify(node.kind, codeMode)
    case Descend(childCodeMode) =>
      BuildChildrenKeepsWellFormed(node, 0, Walk([], current), childCodeMode);
    case Seal =>
      var acc := if current.nodes != [] then Walk([current], Paragraph([])) else Walk([], current);
      BuildChildrenKeepsWellFormed(node, 0, acc, false);
    case Substitute =>
      if current.nodes != [] {
        AppendKeepsWellFormed(current, Placeholder(node));
      }
    case Skip =>
    case Whitespace =>
      if node.text == [] {
        BuildChildrenKeepsWellFormed(node, 0, Walk([], current), false);
      } else if current.nodes != [] {
        AppendKeepsWellFormed(current, LeafOf(node));
        BuildChildrenKeepsWellFormed(node, 0, Walk([], Append(current, LeafOf(node))), false);
      }
    case Record =>
      if node.text == [] {
        BuildChildrenKeepsWellFormed(node, 0, Walk([], current), false);
      } else {
        AppendKeepsWellFormed(current, LeafOf(node));
        BuildChildrenKeepsWellFormed(node, 0, Walk([], Append(current, LeafOf(node))), false);
      }
  }

  lemma {:induction false} BuildChildrenKeepsWellFormed(node: SyntaxNode, i: nat, acc: Walk, codeMode: bool)
    requires i <= |node.children|
    requires AllSealed(acc.sealed) && WellFormed(acc.open)
    ensures AllSealed(BuildChildren(node, i, acc, codeMode).sealed)
    ensures WellFormed(BuildChildren(node, i, acc, codeMode).open)
    decreases node, |node.children| - i
  {
    if i < |node.children| {
      var w := Build(node.children[i], acc.open, codeMode);
      BuildKeepsWellFormed(node.children[i], acc.open, codeMode);
      BuildChildrenKeepsWellFormed(node, i + 1, Walk(acc.sealed + w.sealed, w.open), codeMode);
    }
  }

  /**
   * Every paragraph `preprocess` returns has at least one fragment, none of them a paragraph
   * break or empty, and the first is not whitespace.
   */
  lemma SegmentIsSealed(root: SyntaxNode)
    ensures AllSealed(Segment(root))
  {
    BuildKeepsWellFormed(root, Paragraph([]), false);
  }

  // ---------------------------------------------------------------------------------------------
  // Document order

  /**
   * The fragments a subtree emits, in pre-order, ignoring where paragraphs break, and whether
   * the open paragraph is empty afterwards (`empty` says whether it is empty before).
   */
  datatype Stream = Stream(fragments: seq<Fragment>, empty: bool)

  function Emitted(node: SyntaxNode, empty: bool, codeMode: bool): Stream
    decreases node, |node.children| + 1
  {
    match Classify(node.kind, codeMode)
    case Descend(childCodeMode) => EmittedChildren(node, 0, empty, childCodeMode)
    case Seal => EmittedChildren(node, 0, true, false)
    case Substitute => Stream(if empty then [] else [Placeholder(node)], empty)
    case Skip => Stream([], empty)
    case Whitespace =>
      if node.text == [] then EmittedChildren(node, 0, empty, false)
      else if empty then Stream([], true)
      else Prepend(LeafOf(node), EmittedChildren(node, 0, false, false))
    case Record =>
      if node.text == [] then EmittedChildren(node, 0, empty, false)
      else Prepend(LeafOf(node), EmittedChildren(node, 0, false, false))
  }

  function Prepend(f: Fragment, s: Stream): Stream {
    Stream([f] + s.fragments, s.empty)
  }

  function EmittedChildren(node: SyntaxNode, i: nat, empty: bool, codeMode: bool): Stream
    requires i <= |node.children|
    decreases node, |node.children| - i
  {
    if i == |node.children| then Stream([], empty)
    else
      var s := Emitted(node.children[i], empty, codeMode);
      var t := EmittedChildren(node, i + 1, s.empty, codeMode);
      Stream(s.fragments + t.fragments, t.empty)
  }

  /** Everything a walk has produced, sealed or open, in order. */
  function Produced(w: Walk): seq<Fragment> {
    Flatten(w.sealed) + w.open.nodes
  }

  /**
   * The segmenter only cuts the emitted stream into paragraphs: what it produces is the open
   * paragraph it was given followed by the subtree's fragments in pre-order.
   */
  lemma {:induction false} BuildEmitsInOrder(node: SyntaxNode, current: Paragraph, codeMode: bool)
    ensures Produced(Build(node, current, codeMode)) == current.nodes + Emitted(node, current.nodes == [], codeMode).fragments
    ensures Build(node, current, codeMode).open.nodes == [] <==> Emitted(node, current.nodes == [], codeMode).empty
    decreases node, |node.children| + 2
  {
    var empty := current.nodes == [];
    match Classify(node.kind, codeMode)
    case Descend(childCodeMode) =>
      BuildChildrenEmitsInOrder(node, 0, Walk([], current), childCodeMode);
    case Seal =>
      if current.nodes != [] {
        SealEmitsInOrder(node, current);
      } else {
        BuildChildrenEmitsInOrder(node, 0, Walk([], current), false);
      }
    case Substitute =>
      assert Produced(Walk([], current)) == current.nodes;
    case Skip =>
      assert Produced(Walk([], current)) == current.nodes;
    case Whitespace =>
      if node.text == [] {
        BuildChildrenEmitsInOrder(node, 0, Walk([], current), false);
      } else if !empty {
        LeafEmitsInOrder(node, current);
      } else {
        assert Produced(Walk([], current)) == current.nodes;
      }
    case Record =>
      if node.text == [] {
        BuildChildrenEmitsInOrder(node, 0, Walk([], current), false);
      } else {
        LeafEmitsInOrder(node, current);
      }
  }

  lemma SealEmitsInOrder(node: SyntaxNode, current: Paragraph)
    requires current.nodes != []
    ensures Produced(BuildChildren(node, 0, Walk([current], Paragraph([])), false))
      == current.nodes + EmittedChildren(node, 0, true, false).fragments
    ensures BuildChildren(node, 0, Walk([current], Paragraph([])), false).open.nodes == []
      <==> EmittedChildren(node, 0, true, false).empty
    decreases node, |node.children| + 1
  {
    BuildChildrenEmitsInOrder(node, 0, Walk([current], Paragraph([])), false);
    assert Flatten([current]) == current.nodes by {
      assert [current][..0] == [];
    }
  }

  lemma LeafEmitsInOrder(node: SyntaxNode, current: Paragraph)
    ensures Produced(BuildChildren(node, 0, Walk([], Append(current, LeafOf(node))), false))
      == current.nodes + Prepend(LeafOf(node), EmittedChildren(node, 0, false, false)).fragments
    ensures BuildChildren(node, 0, Walk([], Append(current, LeafOf(node))), false).open.nodes == []
      <==> EmittedChildren(node, 0, false, false).empty
    decreases node, |node.children| + 1
  {
    BuildChildrenEmitsInOrder(node, 0, Walk([], Append(current, LeafOf(node))), false);
  }

  lemma {:induction false} BuildChildrenEmitsInOrder(node: SyntaxNode, i: nat, acc: Walk, codeMode: bool)
    requires i <= |node.children|
    ensures Produced(BuildChildren(node, i, acc, codeMode))
      == Produced(acc) + EmittedChildren(node, i, acc.open.nodes == [], codeMode).fragments
    ensures BuildChildren(node, i, acc, codeMode).open.nodes == []
      <==> EmittedChildren(node, i, acc.open.nodes == [], codeMode).empty
    decreases node, |node.children| - i
  {
    if i < |node.children| {
      var w := Build(node.children[i], acc.open, codeMode);
      var s := Emitted(node.children[i], acc.open.nodes == [], codeMode);
      var next := Walk(acc.sealed + w.sealed, w.open);
      BuildEmitsInOrder(node.children[i], acc.open, codeMode);
      BuildChildrenEmitsInOrder(node, i + 1, next, codeMode);
      FlattenAppend(acc.sealed, w.sealed);
      calc {
        Produced(next);
        Flatten(acc.sealed) + Flatten(w.sealed) + w.open.nodes;
        Flatten(acc.sealed) + Produced(w);
        Flatten(acc.sealed) + (acc.open.nodes + s.fragments);
        Produced(acc) + s.fragments;
      }
    }
  }

  /**
   * Document order: the fragments of all paragraphs `preprocess` returns, read in order, are
   * the subtree's recorded fragments and placeholders in pre-order.
   */
  lemma SegmentPreservesOrder(root: SyntaxNode)
    ensures Flatten(Segment(root)) == Emitted(root, true, false).fragments
  {
    var w := Build(root, Paragraph([]), false);
    BuildEmitsInOrder(root, Paragraph([]), false);
    assert Produced(w) == Emitted(root, true, false).fragments;
    if w.open.nodes != [] {
      FlattenAppend(w.sealed, [w.open]);
      assert Flatten([w.open]) == w.open.nodes by {
        assert [w.open][..0] == [];
      }
    } else {
      assert Produced(w) == Flatten(w.sealed);
    }
  }

  /** Sealed paragraphs hold at least one fragment each. */
  lemma {:induction false} FlattenOfSealed(ps: seq<Paragraph>)
    requires AllSealed(ps)
    ensures |Flatten(ps)| >= |ps|
    decreases |ps|
  {
    if ps != [] {
      FlattenOfSealed(ps[..|ps| - 1]);
    }
  }

  /** A tree that emits no text yields no paragraphs at all. */
  lemma NoTextNoParagraphs(root: SyntaxNode)
    requires Emitted(root, true, false).fragments == []
    ensures Segment(root) == []
  {
    SegmentPreservesOrder(root);
    SegmentIsSealed(root);
    FlattenOfSealed(Segment(root));
  }

  // ---------------------------------------------------------------------------------------------
  // Treatment of single nodes and the scope of code mode

  /**
   * Outside code mode: an ignored kind leaves the state as it was; a substituted kind adds one
   * placeholder to a non-empty open paragraph and nothing to an empty one; a non-empty space
   * before any text is dropped and one after text is recorded; a paragraph break seals a
   * non-empty open paragraph; any other leaf is recorded exactly when it has text. None of
   * these depends on the node's children except the paragraph break, whose children continue
   * the fresh paragraph.
   */
  lemma NodeRules(node: SyntaxNode, current: Paragraph)
    ensures IsSkipped(node.kind) ==> Build(node, current, false) == Walk([], current)
    ensures IsSubstituted(node.kind) && current.nodes != [] ==>
      Build(node, current, false) == Walk([], Paragraph(current.nodes + [Placeholder(node)]))
    ensures IsSubstituted(node.kind) && current.nodes == [] ==> Build(node, current, false) == Walk([], current)
    ensures node.kind.Space? && node.text != [] && current.nodes == [] ==>
      Build(node, current, false) == Walk([], current)
    ensures node.kind.Space? && node.text != [] && current.nodes != [] && node.children == [] ==>
      Build(node, current, false) == Walk([], Append(current, LeafOf(node)))
    ensures node.kind.Parbreak? && node.children == [] ==>
      Build(node, current, false) == if current.nodes != [] then Walk([current], Paragraph([])) else Walk([], current)
    ensures Classify(node.kind, false) == Record && node.children == [] ==>
      Build(node, current, false) == Walk([], if node.text == [] then current else Append(current, LeafOf(node)))
  {
  }

  /** Whether a `Markup` node occurs anywhere in the subtree. */
  predicate ContainsMarkup(node: SyntaxNode)
    decreases node
  {
    node.kind.Markup? || exists j | 0 <= j < |node.children| :: ContainsMarkup(node.children[j])
  }

  /** In code mode, a subtree without a `Markup` node records nothing and seals nothing. */
  lemma {:induction false} CodeModeRecordsNothing(node: SyntaxNode, current: Paragraph)
    requires !ContainsMarkup(node)
    ensures Build(node, current, true) == Walk([], current)
    decreases node, |node.children| + 1
  {
    CodeModeChildrenRecordNothing(node, 0, Walk([], current));
  }

  lemma {:induction false} CodeModeChildrenRecordNothing(node: SyntaxNode, i: nat, acc: Walk)
    requires i <= |node.children|
    requires forall j | i <= j < |node.children| :: !ContainsMarkup(node.children[j])
    ensures BuildChildren(node, i, acc, true) == acc
    decreases node, |node.children| - i
  {
    if i < |node.children| {
      CodeModeRecordsNothing(node.children[i], acc.open);
      assert acc.sealed + [] == acc.sealed;
      CodeModeChildrenRecordNothing(node, i + 1, acc);
    }
  }

  /**
   * Code mode is scoped: a function call, show rule, set rule or let binding outside code mode
   * whose subtree holds no `Markup` node leaves the state exactly as it found it, so the
   * siblings after it continue as if it were absent.
   */
  lemma CodeConstructRecordsNothing(node: SyntaxNode, current: Paragraph)
    requires EntersCodeMode(node.kind) && !ContainsMarkup(node)
    ensures Build(node, current, false) == Walk([], current)
  {
    CodeModeChildrenRecordNothing(node, 0, Walk([], current));
  }

  /**
   * A child whose walk changes nothing can be removed from its parent without changing the
   * parent's walk: later siblings see the same open paragraph and the same code mode.
   */
  lemma {:induction false} InertChildIsInvisible(node: SyntaxNode, k: nat, i: nat, acc: Walk, codeMode: bool)
    requires i <= k < |node.children|
    requires forall p :: Build(node.children[k], p, codeMode) == Walk([], p)
    ensures BuildChildren(node, i, acc, codeMode)
      == BuildChildren(RemoveChild(node, k), i, acc, codeMode)
    decreases |node.children| - i
  {
    var node' := RemoveChild(node, k);
    if i == k {
      assert acc.sealed + [] == acc.sealed;
      assert BuildChildren(node, i, acc, codeMode) == BuildChildren(node, i + 1, acc, codeMode);
      ShiftedChildren(node, k, i + 1, acc, codeMode);
    } else {
      var w := Build(node.children[i], acc.open, codeMode);
      assert node'.children[i] == node.children[i];
      InertChildIsInvisible(node, k, i + 1, Walk(acc.sealed + w.sealed, w.open), codeMode);
    }
  }

  function RemoveChild(node: SyntaxNode, k: nat): SyntaxNode
    requires k < |node.children|
  {
    node.(children := node.children[..k] + node.children[k + 1..])
  }

  lemma {:induction false} ShiftedChildren(node: SyntaxNode, k: nat, i: nat, acc: Walk, codeMode: bool)
    requires k < i <= |node.children|
    ensures BuildChildren(node, i, acc, codeMode) == BuildChildren(RemoveChild(node, k), i - 1, acc, codeMode)
    decreases |node.children| - i
  {
    var node' := RemoveChild(node, k);
    if i < |node.children| {
      assert node'.children[i - 1] == node.children[i];
      var w := Build(node.children[i], acc.open, codeMode);
      ShiftedChildren(node, k, i + 1, Walk(acc.sealed + w.sealed, w.open), codeMode);
    }
  }
}
