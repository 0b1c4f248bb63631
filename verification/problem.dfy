/**
 * A problem reported by LanguageTool, and `Problem::try_from_match`, which maps a match in a
 * paragraph's text back to a line/column range of the document through the paragraph's
 * contributions.
 */
module Problems {
  import opened Wrappers
  import opened Syntax
  import opened ParagraphText
  import opened Ordering
  import opened Ranges

  /** A suggested replacement of a match. */
  datatype Replacement = Replacement(value: string)

  /**
   * What the spellchecker reads of a LanguageTool match: where it lies in the paragraph text,
   * the messages, replacements, rule and category ids, and the context text.
   */
  datatype Match = Match(
    offset: nat,
    length: nat,
    message: string,
    shortMessage: string,
    replacements: seq<Replacement>,
    ruleId: string,
    categoryId: string,
    context: string)

  /** A problem, its fields in declaration order (the order the derived ordering follows). */
  datatype Problem = Problem(
    range: Range,
    matchString: string,
    context: string,
    shortMessage: string,
    message: string,
    replacements: seq<string>,
    ruleCategory: string,
    ruleId: string)

  /** Whether contribution `c` is non-empty and holds paragraph byte `start`. */
  predicate Covers(c: NodeContribution, start: nat) {
    c.length != 0 && c.offset <= start < c.offset + c.length
  }

  /** The index of the first contribution covering `start`, if any (`iter().find`). */
  function FindContribution(cs: seq<NodeContribution>, start: nat): (r: Option<nat>)
    ensures r.Some? ==> r.value < |cs| && Covers(cs[r.value], start)
    ensures r.Some? ==> forall j | 0 <= j < r.value :: !Covers(cs[j], start)
    ensures r.None? <==> forall j | 0 <= j < |cs| :: !Covers(cs[j], start)
    decreases |cs|
  {
    if cs == [] then None
    else if Covers(cs[0], start) then Some(0)
    else
      match FindContribution(cs[1..], start)
      case None => None
      case Some(k) => Some(k + 1)
  }

  /** The text with every carriage return removed. */
  function RemoveCarriageReturns(s: string): (r: string)
    ensures '\r' !in r
    ensures |r| <= |s|
    ensures forall c | c != '\r' :: multiset(r)[c] == multiset(s)[c]
    decreases |s|
  {
    if s == [] then ""
    else
      assert s == s[..|s| - 1] + [s[|s| - 1]];
      if s[|s| - 1] == '\r' then RemoveCarriageReturns(s[..|s| - 1])
      else RemoveCarriageReturns(s[..|s| - 1]) + [s[|s| - 1]]
  }

  function Values(rs: seq<Replacement>): (vs: seq<string>)
    ensures |vs| == |rs| && forall k | 0 <= k < |rs| :: vs[k] == rs[k].value
  {
    seq(|rs|, k requires 0 <= k < |rs| => rs[k].value)
  }

  /**
   * The placing half of `try_from_match`: find the contribution holding the match start, move
   * into document byte space through the contribution's span, and look up 1-based lines and
   * columns of the start and of the end. Any failed step gives `None`.
   */
  function MatchRange(source: Source, m: Match, cs: seq<NodeContribution>): (r: Option<Range>)
    ensures r.Some? ==>
      r.value.start.line >= 1 && r.value.start.column >= 1
      && r.value.end.line >= 1 && r.value.end.column >= 1
    ensures FindContribution(cs, m.offset).None? ==> r.None?
  {
    var index :- FindContribution(cs, m.offset);
    var contribution := cs[index];
    var matchStartOffset := m.offset - contribution.offset;
    var nodeRange :- SpanRange(source, contribution.span);
    var docMatchStart := nodeRange.start + matchStartOffset;
    var docMatchEnd := docMatchStart + m.length;
    var startColumn :- source.byteToColumn(docMatchStart);
    var startLine :- source.byteToLine(docMatchStart);
    var endColumn :- source.byteToColumn(docMatchEnd);
    var endLine :- source.byteToLine(docMatchEnd);
    Some(Range(Position(startLine + 1, startColumn + 1), Position(endLine + 1, endColumn + 1)))
  }

  /**
   * `try_from_match`: a placed match becomes a problem carrying the match string, the context
   * without carriage returns and the match's messages, replacements, category and rule.
   */
  function TryFromMatch(source: Source, m: Match, matchString: string, cs: seq<NodeContribution>): (r: Option<Problem>)
    ensures r.Some? <==> MatchRange(source, m, cs).Some?
    ensures r.Some? ==>
      && r.value.range == MatchRange(source, m, cs).value
      && r.value.matchString == matchString
      && r.value.context == RemoveCarriageReturns(m.context)
      && r.value.shortMessage == m.shortMessage
      && r.value.message == m.message
      && r.value.replacements == Values(m.replacements)
      && r.value.ruleCategory == m.categoryId
      && r.value.ruleId == m.ruleId
    ensures r.Some? ==>
      r.value.range.start.line >= 1 && r.value.range.start.column >= 1
      && r.value.range.end.line >= 1 && r.value.range.end.column >= 1
    ensures FindContribution(cs, m.offset).None? ==> r.None?
  {
    match MatchRange(source, m, cs)
    case None => None
    case Some(range) =>
      Some(Problem(range, matchString, RemoveCarriageReturns(m.context), m.shortMessage, m.message,
                   Values(m.replacements), m.categoryId, m.ruleId))
  }

  // ---------------------------------------------------------------------------------------------
  // Properties of the reconciler

  /** The line/column position of document byte `b`, 1-based, if both lookups succeed. */
  function PositionAt(source: Source, b: nat): Option<Position> {
    match (source.byteToLine(b), source.byteToColumn(b))
    case (Some(line), Some(column)) => Some(Position(line + 1, column + 1))
    case _ => None
  }

  /**
   * The inversion: a match starting `k` bytes into the text of fragment `i` of a paragraph
   * whose fragments all have text is placed `k` bytes after the start of that fragment's node
   * in the document, and ends `length` bytes later; it fails exactly when the node's span or
   * one of the four positions does not resolve.
   */
  lemma MatchMapsIntoFragment(source: Source, nodes: seq<Fragment>, i: nat, k: nat, m: Match, matchString: string)
    requires forall j | 0 <= j < |nodes| :: nodes[j].text != []
    requires i < |nodes| && k < |nodes[i].text|
    requires m.offset == |TextOf(nodes[..i])| + k
    ensures var r := TryFromMatch(source, m, matchString, Contributions(nodes));
      match SpanRange(source, nodes[i].span)
      case None => r.None?
      case Some(nodeRange) =>
        var start := PositionAt(source, nodeRange.start + k);
        var end := PositionAt(source, nodeRange.start + k + m.length);
        if start.Some? && end.Some? then r.Some? && r.value.range == Range(start.value, end.value)
        else r.None?
  {
    var cs := Contributions(nodes);
    FirstCoveringIsFragment(nodes, i, k);
    assert cs[i] == Contribution(nodes, i);
    PlacedThroughContribution(source, m, matchString, cs, i, nodes[i].span, k);
  }

  /**
   * Once the covering contribution is known, placing goes through its node's span, `k` bytes
   * past the contribution's start.
   */
  lemma PlacedThroughContribution(source: Source, m: Match, matchString: string, cs: seq<NodeContribution>,
                                  i: nat, span: Span, k: nat)
    requires FindContribution(cs, m.offset) == Some(i)
    requires cs[i].span == span && m.offset == cs[i].offset + k
    ensures var r := TryFromMatch(source, m, matchString, cs);
      match SpanRange(source, span)
      case None => r.None?
      case Some(nodeRange) =>
        var start := PositionAt(source, nodeRange.start + k);
        var end := PositionAt(source, nodeRange.start + k + m.length);
        if start.Some? && end.Some? then r.Some? && r.value.range == Range(start.value, end.value)
        else r.None?
  {
  }

  /** In a paragraph whose fragments all have text, the covering contribution is unique. */
  lemma FirstCoveringIsFragment(nodes: seq<Fragment>, i: nat, k: nat)
    requires forall j | 0 <= j < |nodes| :: nodes[j].text != []
    requires i < |nodes| && k < |nodes[i].text|
    ensures FindContribution(Contributions(nodes), |TextOf(nodes[..i])| + k) == Some(i)
  {
    var cs := Contributions(nodes);
    var start := |TextOf(nodes[..i])| + k;
    assert cs[i] == Contribution(nodes, i);
    assert Covers(cs[i], start);
    forall j | 0 <= j < i ensures !Covers(cs[j], start) {
      assert cs[j] == Contribution(nodes, j);
      OffsetsIncrease(nodes, j + 1, i);
    }
    var r := FindContribution(cs, start);
    assert r.Some?;
    assert r.value <= i;
  }

  /** Contribution offsets never decrease; fragment `j - 1` ends no later than fragment `i` starts. */
  lemma {:induction false} OffsetsIncrease(nodes: seq<Fragment>, j: nat, i: nat)
    requires 0 < j <= i < |nodes|
    ensures Contribution(nodes, j - 1).offset + Contribution(nodes, j - 1).length <= Contribution(nodes, i).offset
    decreases i - j
  {
    ContributionsArePrefixSums(nodes);
    assert Contributions(nodes)[j - 1] == Contribution(nodes, j - 1);
    assert Contributions(nodes)[j] == Contribution(nodes, j);
    if j < i {
      OffsetsIncrease(nodes, j + 1, i);
    }
  }

  /** A match starting in a merge separator (a detached span) is never reported. */
  lemma DetachedSpanGivesNone(source: Source, m: Match, matchString: string, cs: seq<NodeContribution>)
    requires FindContribution(cs, m.offset).Some?
    requires cs[FindContribution(cs, m.offset).value].span.Detached?
    ensures TryFromMatch(source, m, matchString, cs).None?
  {
  }

  /** Removing carriage returns distributes over concatenation. */
  lemma {:induction false} RemoveCarriageReturnsConcat(a: string, b: string)
    ensures RemoveCarriageReturns(a + b) == RemoveCarriageReturns(a) + RemoveCarriageReturns(b)
    decreases |b|
  {
    if b == [] {
      assert a + b == a;
    } else {
      var b' := b[..|b| - 1];
      RemoveCarriageReturnsConcat(a, b');
      assert (a + b)[..|a + b| - 1] == a + b';
    }
  }

  /** Text without carriage returns is left as it is; in particular the removal is idempotent. */
  lemma {:induction false} RemoveCarriageReturnsKeepsClean(s: string)
    requires '\r' !in s
    ensures RemoveCarriageReturns(s) == s
    decreases |s|
  {
    if s != [] {
      RemoveCarriageReturnsKeepsClean(s[..|s| - 1]);
      assert s[..|s| - 1] + [s[|s| - 1]] == s;
    }
  }

  // ---------------------------------------------------------------------------------------------
  // Ordering

  /** The comparisons of the fields of `a` and `b`, in declaration order. */
  function FieldOrders(a: Problem, b: Problem): (os: seq<Ordering>)
    ensures |os| == 8
  {
    [ CompareRange(a.range, b.range),
      CompareString(a.matchString, b.matchString),
      CompareString(a.context, b.context),
      CompareString(a.shortMessage, b.shortMessage),
      CompareString(a.message, b.message),
      CompareStrings(a.replacements, b.replacements),
      CompareString(a.ruleCategory, b.ruleCategory),
      CompareString(a.ruleId, b.ruleId) ]
  }

  /** The derived ordering of problems: lexicographic over the fields in declaration order. */
  function CompareProblem(a: Problem, b: Problem): Ordering {
    Lex(FieldOrders(a, b))
  }

  /** The total-order facts about one string field, without quantifiers. */
  lemma StringField(a: string, b: string, c: string)
    ensures CompareString(a, b) == Equal <==> a == b
    ensures CompareString(b, a) == CompareString(a, b).Reverse()
    ensures Consistent(CompareString(a, b), CompareString(b, c), CompareString(a, c))
  {
    CompareStringIsTotalOrder();
    TotalOrderIsConsistent(CompareString, a, b, c);
  }

  lemma StringsField(a: seq<string>, b: seq<string>, c: seq<string>)
    ensures CompareStrings(a, b) == Equal <==> a == b
    ensures CompareStrings(b, a) == CompareStrings(a, b).Reverse()
    ensures Consistent(CompareStrings(a, b), CompareStrings(b, c), CompareStrings(a, c))
  {
    CompareStringsIsTotalOrder();
    TotalOrderIsConsistent(CompareStrings, a, b, c);
  }

  lemma RangeField(a: Range, b: Range, c: Range)
    ensures CompareRange(a, b) == Equal <==> a == b
    ensures CompareRange(b, a) == CompareRange(a, b).Reverse()
    ensures Consistent(CompareRange(a, b), CompareRange(b, c), CompareRange(a, c))
  {
    RangeOrderIsTotal();
    TotalOrderIsConsistent(CompareRange, a, b, c);
  }

  /** Field by field, the comparisons of `a`, `b` and `c` are consistent. */
  lemma FieldsConsistent(a: Problem, b: Problem, c: Problem)
    ensures forall k | 0 <= k < 8 :: Consistent(FieldOrders(a, b)[k], FieldOrders(b, c)[k], FieldOrders(a, c)[k])
  {
    forall k | 0 <= k < 8
      ensures Consistent(FieldOrders(a, b)[k], FieldOrders(b, c)[k], FieldOrders(a, c)[k])
    {
      if k == 0 {
        RangeField(a.range, b.range, c.range);
      } else if k == 1 {
        StringField(a.matchString, b.matchString, c.matchString);
      } else if k == 2 {
        StringField(a.context, b.context, c.context);
      } else if k == 3 {
        StringField(a.shortMessage, b.shortMessage, c.shortMessage);
      } else if k == 4 {
        StringField(a.message, b.message, c.message);
      } else if k == 5 {
        StringsField(a.replacements, b.replacements, c.replacements);
      } else if k == 6 {
        StringField(a.ruleCategory, b.ruleCategory, c.ruleCategory);
      } else {
        StringField(a.ruleId, b.ruleId, c.ruleId);
      }
    }
  }

  /** Field by field, comparing the other way round reverses the result. */
  lemma FieldsReverse(a: Problem, b: Problem)
    ensures forall k | 0 <= k < 8 :: FieldOrders(b, a)[k] == FieldOrders(a, b)[k].Reverse()
  {
    forall k | 0 <= k < 8
      ensures FieldOrders(b, a)[k] == FieldOrders(a, b)[k].Reverse()
    {
      if k == 0 {
        RangeField(a.range, b.range, b.range);
      } else if k == 1 {
        StringField(a.matchString, b.matchString, b.matchString);
      } else if k == 2 {
        StringField(a.context, b.context, b.context);
      } else if k == 3 {
        StringField(a.shortMessage, b.shortMessage, b.shortMessage);
      } else if k == 4 {
        StringField(a.message, b.message, b.message);
      } else if k == 5 {
        StringsField(a.replacements, b.replacements, b.replacements);
      } else if k == 6 {
        StringField(a.ruleCategory, b.ruleCategory, b.ruleCategory);
      } else {
        StringField(a.ruleId, b.ruleId, b.ruleId);
      }
    }
  }

  /** All fields compare `Equal` exactly when the problems are equal. */
  lemma FieldsEqual(a: Problem, b: Problem)
    ensures (forall k | 0 <= k < 8 :: FieldOrders(a, b)[k] == Equal) <==> a == b
  {
    RangeField(a.range, b.range, b.range);
    StringField(a.matchString, b.matchString, b.matchString);
    StringField(a.context, b.context, b.context);
    StringField(a.shortMessage, b.shortMessage, b.shortMessage);
    StringField(a.message, b.message, b.message);
    StringsField(a.replacements, b.replacements, b.replacements);
    StringField(a.ruleCategory, b.ruleCategory, b.ruleCategory);
    StringField(a.ruleId, b.ruleId, b.ruleId);
    var os := FieldOrders(a, b);
    assert (os[0] == Equal && os[1] == Equal && os[2] == Equal && os[3] == Equal && os[4] == Equal
      && os[5] == Equal && os[6] == Equal && os[7] == Equal) ==> a == b;
  }

  lemma ProblemCompareEqual(a: Problem, b: Problem)
    ensures CompareProblem(a, b) == Equal <==> a == b
  {
    FieldsEqual(a, b);
    LexEqual(FieldOrders(a, b));
  }

  lemma ProblemCompareReverse(a: Problem, b: Problem)
    ensures CompareProblem(b, a) == CompareProblem(a, b).Reverse()
  {
    FieldsReverse(a, b);
    LexReverse(FieldOrders(a, b), FieldOrders(b, a));
  }

  lemma ProblemCompareTransitive(a: Problem, b: Problem, c: Problem)
    ensures CompareProblem(a, b) == Less && CompareProblem(b, c) == Less ==> CompareProblem(a, c) == Less
  {
    FieldsConsistent(a, b, c);
    LexTransitive(FieldOrders(a, b), FieldOrders(b, c), FieldOrders(a, c));
  }

  /**
   * Problems are totally ordered, consistently with equality, so sorting them is determined;
   * a problem earlier in the document (by range) comes first.
   */
  lemma ProblemOrderIsTotal()
    ensures IsTotalOrder(CompareProblem)
    ensures forall a: Problem, b: Problem :: CompareRange(a.range, b.range) == Less ==> CompareProblem(a, b) == Less
  {
    forall a: Problem, b: Problem ensures CompareProblem(a, b) == Equal <==> a == b {
      ProblemCompareEqual(a, b);
    }
    forall a: Problem, b: Problem ensures CompareProblem(b, a) == CompareProblem(a, b).Reverse() {
      ProblemCompareReverse(a, b);
    }
    forall a: Problem, b: Problem, c: Problem
      ensures CompareProblem(a, b) == Less && CompareProblem(b, c) == Less ==> CompareProblem(a, c) == Less
    {
      ProblemCompareTransitive(a, b, c);
    }
  }
}
