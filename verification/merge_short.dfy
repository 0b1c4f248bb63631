/**
 * `merge_short`: one left-to-right pass that folds every paragraph following a short one into
 * it, behind a synthetic paragraph separator, until the merged paragraph is long enough.
 */
module MergeShort {
  import opened Syntax
  import opened ParagraphText
  import Preprocessor

  /** The synthetic `Space` leaf `"\r\n\r\n"` put between merged paragraphs; it has no span. */
  function Separator(): Fragment {
    Fragment(Space, "\r\n\r\n", Detached)
  }

  /** The output built so far and whether its last paragraph is still short. */
  datatype MergeState = MergeState(output: seq<Paragraph>, latestIsShort: bool)

  /** Paragraph `p` with the separator and then all of `q`'s fragments appended. */
  function Join(p: Paragraph, q: Paragraph): Paragraph {
    Paragraph(p.nodes + ([Separator()] + q.nodes))
  }

  function Last(ps: seq<Paragraph>): Paragraph
    requires ps != []
  {
    ps[|ps| - 1]
  }

  /** One iteration of the loop: merge into a short latest paragraph, or start a new one. */
  function MergeStep(st: MergeState, p: Paragraph, minLength: nat): MergeState
    requires st.latestIsShort ==> st.output != []
  {
    if st.latestIsShort then
      var latest := Join(Last(st.output), p);
      MergeState(st.output[..|st.output| - 1] + [latest], TextLength(latest) < minLength)
    else
      MergeState(st.output + [p], TextLength(p) < minLength)
  }

  /**
   * The state after the loop has consumed `ps`. The flag is set exactly when there is a last
   * output paragraph and it is shorter than `minLength`.
   */
  function MergeFold(ps: seq<Paragraph>, minLength: nat): (st: MergeState)
    ensures st.latestIsShort <==> st.output != [] && TextLength(Last(st.output)) < minLength
    ensures st.output == [] <==> ps == []
    decreases |ps|
  {
    if ps == [] then MergeState([], false)
    else MergeStep(MergeFold(ps[..|ps| - 1], minLength), ps[|ps| - 1], minLength)
  }

  function Merged(ps: seq<Paragraph>, minLength: nat): seq<Paragraph> {
    MergeFold(ps, minLength).output
  }

  /** `merge_short`, with the last output paragraph replaced when it grows. */
  method MergeShortParagraphs(paragraphs: seq<Paragraph>, minLength: nat) returns (output: seq<Paragraph>)
    ensures output == Merged(paragraphs, minLength)
  {
    output := [];
    var latestIsShort := false;
    for i := 0 to |paragraphs|
      invariant MergeState(output, latestIsShort) == MergeFold(paragraphs[..i], minLength)
    {
      assert paragraphs[..i + 1][..i] == paragraphs[..i];
      var paragraph := paragraphs[i];
      if latestIsShort {
        var latest := output[|output| - 1];
        var breakNode := Separator();
        latest := Paragraph(latest.nodes + ([breakNode] + paragraph.nodes));
        output := output[..|output| - 1] + [latest];
        var text, _ := GetText(latest);
        // The flag stays set until the merged paragraph is long enough.
        latestIsShort := !(|text| >= minLength);
        continue;
      }
      var text, _ := GetText(paragraph);
      if |text| < minLength {
        latestIsShort := true;
      }
      output := output + [paragraph];
    }
    assert paragraphs[..|paragraphs|] == paragraphs;
  }

  // ---------------------------------------------------------------------------------------------
  // Properties

  /** Input in which every paragraph is long enough comes back unchanged. */
  lemma {:induction false} LongParagraphsUnchanged(ps: seq<Paragraph>, minLength: nat)
    requires forall k | 0 <= k < |ps| :: TextLength(ps[k]) >= minLength
    ensures Merged(ps, minLength) == ps
    decreases |ps|
  {
    if ps != [] {
      LongParagraphsUnchanged(ps[..|ps| - 1], minLength);
      assert ps[..|ps| - 1] + [ps[|ps| - 1]] == ps;
    }
  }

  /** Every output paragraph but the last reaches `minLength`. */
  lemma {:induction false} OnlyLastMayBeShort(ps: seq<Paragraph>, minLength: nat)
    ensures var out := Merged(ps, minLength);
      forall k | 0 <= k < |out| - 1 :: TextLength(out[k]) >= minLength
    decreases |ps|
  {
    if ps != [] {
      var st := MergeFold(ps[..|ps| - 1], minLength);
      OnlyLastMayBeShort(ps[..|ps| - 1], minLength);
      assert Merged(ps[..|ps| - 1], minLength) == st.output;
      assert forall k | 0 <= k < |st.output| - 1 :: TextLength(st.output[k]) >= minLength;
      var out := Merged(ps, minLength);
      if st.latestIsShort {
        assert out == st.output[..|st.output| - 1] + [Join(Last(st.output), ps[|ps| - 1])];
        assert forall k | 0 <= k < |out| - 1 :: out[k] == st.output[k];
      } else {
        assert out == st.output + [ps[|ps| - 1]];
        forall k | 0 <= k < |out| - 1
          ensures TextLength(out[k]) >= minLength
        {
          assert out[k] == st.output[k];
          if k == |st.output| - 1 {
            assert st.output[k] == Last(st.output);
          }
        }
      }
    }
  }

  /** The paragraphs' fragments, with the separator between consecutive paragraphs. */
  function Joined(ps: seq<Paragraph>): seq<Fragment>
    decreases |ps|
  {
    if ps == [] then []
    else if |ps| == 1 then ps[0].nodes
    else Joined(ps[..|ps| - 1]) + ([Separator()] + ps[|ps| - 1].nodes)
  }

  lemma {:induction false} JoinedSnoc(ps: seq<Paragraph>, p: Paragraph)
    requires ps != []
    ensures Joined(ps + [p]) == Joined(ps) + ([Separator()] + p.nodes)
  {
    assert (ps + [p])[..|ps|] == ps;
  }

  /** Replacing the last paragraph `l` by `Join(l, p)` joins exactly like appending `p`. */
  lemma {:induction false} JoinedMerge(ps: seq<Paragraph>, p: Paragraph)
    requires ps != []
    ensures Joined(ps[..|ps| - 1] + [Join(Last(ps), p)]) == Joined(ps + [p])
  {
    var init := ps[..|ps| - 1];
    var l := Last(ps);
    assert init + [l] == ps;
    JoinedSnoc(ps, p);
    if init == [] {
      assert ps == [l];
      JoinedMergeSingle(l, p);
    } else {
      JoinedMergeMore(init, l, p);
      assert Joined(init + [l]) == Joined(ps);
    }
  }

  lemma JoinedMergeSingle(l: Paragraph, p: Paragraph)
    ensures Joined([Join(l, p)]) == Joined([l]) + ([Separator()] + p.nodes)
  {
  }

  lemma {:induction false} JoinedMergeMore(init: seq<Paragraph>, l: Paragraph, p: Paragraph)
    requires init != []
    ensures Joined(init + [Join(l, p)]) == Joined(init + [l]) + ([Separator()] + p.nodes)
  {
    var tail := [Separator()] + p.nodes;
    JoinedSnoc(init, Join(l, p));
    JoinedSnoc(init, l);
    calc {
      Joined(init + [Join(l, p)]);
      Joined(init) + ([Separator()] + (l.nodes + tail));
      { assert [Separator()] + (l.nodes + tail) == ([Separator()] + l.nodes) + tail; }
      Joined(init) + (([Separator()] + l.nodes) + tail);
      (Joined(init) + ([Separator()] + l.nodes)) + tail;
    }
  }

  /**
   * Nothing is lost, added or reordered: joining the output with separators gives the same
   * fragments as joining the input, so each merge point became exactly one separator.
   */
  lemma {:induction false} MergePreservesFragments(ps: seq<Paragraph>, minLength: nat)
    ensures Joined(Merged(ps, minLength)) == Joined(ps)
    decreases |ps|
  {
    if ps != [] {
      var init := ps[..|ps| - 1];
      var p := ps[|ps| - 1];
      var st := MergeFold(init, minLength);
      MergePreservesFragments(init, minLength);
      assert init + [p] == ps;
      if st.latestIsShort {
        JoinedMerge(st.output, p);
      } else if init != [] {
        JoinedSnoc(st.output, p);
        JoinedSnoc(init, p);
      }
    }
  }

  /** Joining adds one separator per boundary. */
  lemma {:induction false} JoinedLength(ps: seq<Paragraph>)
    requires ps != []
    ensures |Joined(ps)| == |Flatten(ps)| + |ps| - 1
    decreases |ps|
  {
    if |ps| > 1 {
      JoinedLength(ps[..|ps| - 1]);
    } else {
      assert ps[..0] == [];
    }
  }

  /** Output fragments = input fragments plus one separator per merge; a merge removes a paragraph. */
  lemma FragmentCount(ps: seq<Paragraph>, minLength: nat)
    ensures |Merged(ps, minLength)| <= |ps|
    ensures |Flatten(Merged(ps, minLength))| == |Flatten(ps)| + (|ps| - |Merged(ps, minLength)|)
  {
    var out := Merged(ps, minLength);
    MergePreservesFragments(ps, minLength);
    OutputNoLonger(ps, minLength);
    if ps != [] {
      JoinedLength(ps);
      JoinedLength(out);
    }
  }

  lemma {:induction false} OutputNoLonger(ps: seq<Paragraph>, minLength: nat)
    ensures |Merged(ps, minLength)| <= |ps|
    decreases |ps|
  {
    if ps != [] {
      OutputNoLonger(ps[..|ps| - 1], minLength);
    }
  }

  /** A merged paragraph is four bytes longer than its two parts together. */
  lemma JoinLength(p: Paragraph, q: Paragraph)
    ensures TextLength(Join(p, q)) == TextLength(p) + 4 + TextLength(q)
  {
    TextOfAppend(p.nodes, [Separator()] + q.nodes);
    TextOfAppend([Separator()], q.nodes);
    assert TextOf([Separator()]) == "\r\n\r\n" by {
      assert [Separator()][..0] == [];
    }
  }

  /**
   * The worked example: with `minLength` 10, paragraphs of lengths 3, 4 and 20 become two,
   * the first two joined (length 11) and the third unchanged.
   */
  lemma ShortPairMerged(a: Paragraph, b: Paragraph, c: Paragraph)
    requires TextLength(a) == 3 && TextLength(b) == 4 && TextLength(c) == 20
    ensures Merged([a, b, c], 10) == [Join(a, b), c]
    ensures TextLength(Join(a, b)) == 11
  {
    JoinLength(a, b);
    assert [a, b, c][..2] == [a, b];
    assert [a, b][..1] == [a];
    assert [a][..0] == [];
    assert MergeFold([a], 10) == MergeState([a], true);
    assert MergeFold([a, b], 10) == MergeState([Join(a, b)], false);
    assert MergeFold([a, b, c], 10) == MergeState([Join(a, b), c], false);
  }

  /** Merging well-formed, non-empty paragraphs gives well-formed, non-empty paragraphs. */
  lemma {:induction false} MergeKeepsSealed(ps: seq<Paragraph>, minLength: nat)
    requires Preprocessor.AllSealed(ps)
    ensures Preprocessor.AllSealed(Merged(ps, minLength))
    decreases |ps|
  {
    if ps != [] {
      var init := ps[..|ps| - 1];
      var p := ps[|ps| - 1];
      var st := MergeFold(init, minLength);
      assert Preprocessor.AllSealed(init);
      MergeKeepsSealed(init, minLength);
      if st.latestIsShort {
        var l := Last(st.output);
        var j := Join(l, p);
        assert forall k | 0 <= k < |j.nodes| :: !j.nodes[k].kind.Parbreak? && j.nodes[k].text != [] by {
          forall k | 0 <= k < |j.nodes| ensures !j.nodes[k].kind.Parbreak? && j.nodes[k].text != [] {
            if k < |l.nodes| {
              assert j.nodes[k] == l.nodes[k];
            } else if k == |l.nodes| {
              assert j.nodes[k] == Separator();
            } else {
              assert j.nodes[k] == p.nodes[k - |l.nodes| - 1];
            }
          }
        }
        assert j.nodes[0] == l.nodes[0];
      }
    }
  }
}
