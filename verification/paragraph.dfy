/**
 * A paragraph: an ordered list of fragments, and `get_text`, which concatenates their texts and
 * records where each fragment's text landed (its contribution).
 */
module ParagraphText {
  import opened Syntax

  datatype Paragraph = Paragraph(nodes: seq<Fragment>)

  /** Fragment `span` produced `length` bytes of the paragraph text starting at `offset`. */
  datatype NodeContribution = NodeContribution(span: Span, offset: nat, length: nat)

  /** The concatenation of the fragments' texts, in order. */
  function TextOf(nodes: seq<Fragment>): string
    decreases |nodes|
  {
    if nodes == [] then "" else TextOf(nodes[..|nodes| - 1]) + nodes[|nodes| - 1].text
  }

  /** All fragments of a list of paragraphs, in order. */
  function Flatten(ps: seq<Paragraph>): seq<Fragment>
    decreases |ps|
  {
    if ps == [] then [] else Flatten(ps[..|ps| - 1]) + ps[|ps| - 1].nodes
  }

  lemma {:induction false} FlattenAppend(a: seq<Paragraph>, b: seq<Paragraph>)
    ensures Flatten(a + b) == Flatten(a) + Flatten(b)
    decreases |b|
  {
    if b == [] {
      assert a + b == a;
    } else {
      var b' := b[..|b| - 1];
      FlattenAppend(a, b');
      assert (a + b)[..|a + b| - 1] == a + b';
      assert (a + b)[|a + b| - 1] == b[|b| - 1];
    }
  }

  /** Byte length of a paragraph's text (one byte per character: text is taken to be ASCII). */
  function TextLength(p: Paragraph): nat {
    |TextOf(p.nodes)|
  }

  /** The contribution of fragment `i`: its span, the length of the text before it, its length. */
  function Contribution(nodes: seq<Fragment>, i: nat): NodeContribution
    requires i < |nodes|
  {
    NodeContribution(nodes[i].span, |TextOf(nodes[..i])|, |nodes[i].text|)
  }

  function Contributions(nodes: seq<Fragment>): seq<NodeContribution> {
    seq(|nodes|, i requires 0 <= i < |nodes| => Contribution(nodes, i))
  }

  /** Sum of the contribution lengths. */
  function TotalLength(cs: seq<NodeContribution>): nat
    decreases |cs|
  {
    if cs == [] then 0 else TotalLength(cs[..|cs| - 1]) + cs[|cs| - 1].length
  }

  lemma {:induction false} TextOfAppend(a: seq<Fragment>, b: seq<Fragment>)
    ensures TextOf(a + b) == TextOf(a) + TextOf(b)
    decreases |b|
  {
    if b == [] {
      assert a + b == a;
    } else {
      var b' := b[..|b| - 1];
      var last := b[|b| - 1];
      TextOfAppend(a, b');
      assert (a + b)[..|a + b| - 1] == a + b';
      assert (a + b)[|a + b| - 1] == last;
      calc {
        TextOf(a + b);
        TextOf(a + b') + last.text;
        (TextOf(a) + TextOf(b')) + last.text;
        TextOf(a) + (TextOf(b') + last.text);
        TextOf(a) + TextOf(b);
      }
    }
  }

  /** The text of a prefix is a prefix of the text. */
  lemma TextOfPrefix(nodes: seq<Fragment>, i: nat, j: nat)
    requires i <= j <= |nodes|
    ensures TextOf(nodes[..j]) == TextOf(nodes[..i]) + TextOf(nodes[i..j])
  {
    assert nodes[..j] == nodes[..i] + nodes[i..j];
    TextOfAppend(nodes[..i], nodes[i..j]);
  }

  /** Fragment `i` starts where the text of the fragments before it ends. */
  lemma TextOfStep(nodes: seq<Fragment>, i: nat)
    requires i < |nodes|
    ensures TextOf(nodes[..i + 1]) == TextOf(nodes[..i]) + nodes[i].text
  {
    assert nodes[..i + 1][..i] == nodes[..i];
  }

  /** Contribution `i` covers exactly fragment `i`'s text. */
  lemma ContributionCoversFragment(nodes: seq<Fragment>, i: nat)
    requires i < |nodes|
    ensures var c := Contribution(nodes, i);
      c.offset + c.length <= |TextOf(nodes)| && TextOf(nodes)[c.offset..c.offset + c.length] == nodes[i].text
  {
    TextOfStep(nodes, i);
    TextOfPrefix(nodes, i + 1, |nodes|);
    assert nodes[..|nodes|] == nodes;
  }

  /**
   * The contributions are prefix sums: one per fragment and carrying its span and its text's
   * length, the first at offset 0, each starting where the previous one ends, and the last
   * ending at the end of the text.
   */
  lemma ContributionsArePrefixSums(nodes: seq<Fragment>)
    ensures |Contributions(nodes)| == |nodes|
    ensures forall i | 0 <= i < |nodes| ::
      Contributions(nodes)[i].span == nodes[i].span && Contributions(nodes)[i].length == |nodes[i].text|
    ensures |nodes| > 0 ==> Contributions(nodes)[0].offset == 0
    ensures forall i | 0 <= i < |nodes| - 1 ::
      Contributions(nodes)[i + 1].offset == Contributions(nodes)[i].offset + Contributions(nodes)[i].length
    ensures |nodes| > 0 ==>
      Contributions(nodes)[|nodes| - 1].offset + Contributions(nodes)[|nodes| - 1].length == |TextOf(nodes)|
  {
    forall i | 0 <= i < |nodes| - 1
      ensures Contribution(nodes, i + 1).offset == Contribution(nodes, i).offset + Contribution(nodes, i).length
    {
      TextOfStep(nodes, i);
    }
    if |nodes| > 0 {
      TextOfStep(nodes, |nodes| - 1);
      assert nodes[..|nodes|] == nodes;
    }
  }

  /** Each contribution covers exactly its fragment's text within the paragraph text. */
  lemma ContributionsCoverFragments(nodes: seq<Fragment>)
    ensures forall i | 0 <= i < |Contributions(nodes)| ::
      var c := Contributions(nodes)[i];
      c.offset + c.length <= |TextOf(nodes)| && TextOf(nodes)[c.offset..c.offset + c.length] == nodes[i].text
  {
    forall i | 0 <= i < |nodes|
      ensures var c := Contribution(nodes, i);
        c.offset + c.length <= |TextOf(nodes)| && TextOf(nodes)[c.offset..c.offset + c.length] == nodes[i].text
    {
      ContributionCoversFragment(nodes, i);
    }
  }

  /** The contribution lengths add up to the length of the text. */
  lemma {:induction false} TotalLengthIsTextLength(nodes: seq<Fragment>)
    ensures TotalLength(Contributions(nodes)) == |TextOf(nodes)|
    decreases |nodes|
  {
    if nodes != [] {
      var init := nodes[..|nodes| - 1];
      TotalLengthIsTextLength(init);
      var cs := Contributions(nodes);
      assert cs[..|cs| - 1] == Contributions(init) by {
        forall i | 0 <= i < |init| ensures cs[i] == Contributions(init)[i] {
          assert init[..i] == nodes[..i];
        }
      }
    }
  }

  /**
   * `Paragraph::get_text`: appends each fragment's text to the output, recording its span,
   * the output length before it and its length.
   */
  method GetText(p: Paragraph) returns (output: string, nodeContributions: seq<NodeContribution>)
    ensures output == TextOf(p.nodes)
    ensures nodeContributions == Contributions(p.nodes)
  {
    output := "";
    nodeContributions := [];
    for i := 0 to |p.nodes|
      invariant output == TextOf(p.nodes[..i])
      invariant |nodeContributions| == i
      invariant forall j | 0 <= j < i :: nodeContributions[j] == Contribution(p.nodes, j)
    {
      var node := p.nodes[i];
      var text := node.text;
      var offset := |output|;
      var length := |text|;
      output := output + text;
      nodeContributions := nodeContributions + [NodeContribution(node.span, offset, length)];
      assert p.nodes[..i + 1][..i] == p.nodes[..i];
    }
    assert p.nodes[..|p.nodes|] == p.nodes;
  }
}
