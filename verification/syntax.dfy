/**
 * The parts of the typst syntax library the spellchecker reads: node kinds, spans,
 * immutable syntax nodes, and the source's span and byte-position lookups.
 * Parsing itself is not modelled: a tree is an input value.
 */
module Syntax {
  import opened Wrappers

  /**
   * The node kinds the segmenter distinguishes; every other kind is `Other`,
   * carrying its name.
   */
  datatype SyntaxKind =
    | Markup | Text | Space | Parbreak
    | Raw | Equation | FieldAccess
    | Hash | Label | ModuleImport | ModuleInclude | LineComment | BlockComment
    | Ident | Underscore | Star
    | FuncCall | ShowRule | SetRule | LetBinding
    | Other(name: string)

  /** The kinds replaced by a placeholder naming them. */
  predicate IsSubstituted(kind: SyntaxKind) {
    kind.Raw? || kind.Equation? || kind.FieldAccess?
  }

  /** The name `SyntaxKind::name()` gives a substituted kind. */
  function KindName(kind: SyntaxKind): string
    requires IsSubstituted(kind)
  {
    match kind
    case Raw => "raw block"
    case Equation => "equation"
    case FieldAccess => "field access"
  }

  /**
   * A span either points at a node of the source or is detached. The merge separator is the
   * only node the model creates with a detached span; placeholders keep the replaced node's span.
   */
  datatype Span = Detached | Attached(id: nat)

  /** An immutable syntax node: kind, its own text (empty for inner nodes), span and children. */
  datatype SyntaxNode = SyntaxNode(kind: SyntaxKind, text: string, span: Span, children: seq<SyntaxNode>)

  /**
   * What a paragraph keeps of a node: its kind, text and span. Nodes borrowed from the
   * tree and nodes synthesised by the preprocessor look the same from here on.
   */
  datatype Fragment = Fragment(kind: SyntaxKind, text: string, span: Span)

  function LeafOf(node: SyntaxNode): Fragment {
    Fragment(node.kind, node.text, node.span)
  }

  /** The synthetic `Text` node standing for a raw block, equation or field access. */
  function Placeholder(node: SyntaxNode): (f: Fragment)
    requires IsSubstituted(node.kind)
    ensures f.kind == Text && f.span == node.span
    ensures |f.text| >= 2 && f.text[0] == '`' && f.text[|f.text| - 1] == '`'
  {
    Fragment(Text, "`" + KindName(node.kind) + "`", node.span)
  }

  /** Byte range of a node in the document. */
  datatype ByteRange = ByteRange(start: nat, end: nat)

  /**
   * A parsed document, seen through the three lookups the reconciler uses; each may fail.
   * `rangeOf` resolves the id of an attached span.
   */
  datatype Source = Source(
    rangeOf: nat -> Option<ByteRange>,
    byteToLine: nat -> Option<nat>,
    byteToColumn: nat -> Option<nat>)

  /** `source.range(span)`: a detached span never resolves. */
  function SpanRange(source: Source, span: Span): (r: Option<ByteRange>)
    ensures span.Detached? ==> r.None?
  {
    match span
    case Detached => None
    case Attached(id) => source.rangeOf(id)
  }
}
