/** Document positions and ranges, their derived ordering, and how a range is displayed. */
module Ranges {
  import opened Ordering
  import opened Decimal

  /** A 1-based line and column. */
  datatype Position = Position(line: nat, column: nat)

  datatype Range = Range(start: Position, end: Position)

  /** Derived `Ord`: by `line`, then by `column` (declaration order). */
  function ComparePosition(a: Position, b: Position): Ordering {
    CompareNat(a.line, b.line).Then(CompareNat(a.column, b.column))
  }

  /** Derived `Ord`: by `start`, then by `end`. */
  function CompareRange(a: Range, b: Range): Ordering {
    ComparePosition(a.start, b.start).Then(ComparePosition(a.end, b.end))
  }

  /** Positions are totally ordered, lines first, and equal exactly when equal field by field. */
  lemma PositionOrderIsTotal()
    ensures IsTotalOrder(ComparePosition)
    ensures forall a: Position, b: Position :: a.line < b.line ==> ComparePosition(a, b) == Less
    ensures forall a: Position, b: Position :: a.line == b.line ==> ComparePosition(a, b) == CompareNat(a.column, b.column)
  {
  }

  /** Ranges are totally ordered, starts first, and equal exactly when equal field by field. */
  lemma RangeOrderIsTotal()
    ensures IsTotalOrder(CompareRange)
    ensures forall a: Range, b: Range :: ComparePosition(a.start, b.start) == Less ==> CompareRange(a, b) == Less
    ensures forall a: Range, b: Range :: a.start == b.start ==> CompareRange(a, b) == ComparePosition(a.end, b.end)
  {
    PositionOrderIsTotal();
  }

  /**
   * `Display for Range`: "line L, column C1-C2" when the range stays on one line,
   * "lines L1-L2, column C1-C2" otherwise.
   */
  function Format(r: Range): (s: string)
    ensures |s| > 5 && s[..4] == "line"
    ensures s[4] == ' ' <==> r.start.line == r.end.line
  {
    if r.start.line == r.end.line then
      "line " + (NatToString(r.start.line) + ColumnsPart(r))
    else
      "lines " + (NatToString(r.start.line) + ("-" + (NatToString(r.end.line) + ColumnsPart(r))))
  }

  /**
   * The displayed numbers read back, each in its place: the line (or the two lines), then the
   * start and end columns, each a run of decimal digits.
   */
  lemma FormatReadsBack(r: Range)
    ensures r.start.line == r.end.line ==>
      exists d1, d2, d3 | AllDigits(d1) && AllDigits(d2) && AllDigits(d3) ::
        && Format(r) == "line " + d1 + ", column " + d2 + "-" + d3
        && DigitsValue(d1) == r.start.line
        && DigitsValue(d2) == r.start.column
        && DigitsValue(d3) == r.end.column
    ensures r.start.line != r.end.line ==>
      exists d1, d2, d3, d4 | AllDigits(d1) && AllDigits(d2) && AllDigits(d3) && AllDigits(d4) ::
        && Format(r) == "lines " + d1 + "-" + d2 + ", column " + d3 + "-" + d4
        && DigitsValue(d1) == r.start.line
        && DigitsValue(d2) == r.end.line
        && DigitsValue(d3) == r.start.column
        && DigitsValue(d4) == r.end.column
  {
    var l1, l2 := NatToString(r.start.line), NatToString(r.end.line);
    var c1, c2 := NatToString(r.start.column), NatToString(r.end.column);
    DigitsValueOfNatToString(r.start.line);
    DigitsValueOfNatToString(r.end.line);
    DigitsValueOfNatToString(r.start.column);
    DigitsValueOfNatToString(r.end.column);
    if r.start.line == r.end.line {
      assert Format(r) == "line " + l1 + ", column " + c1 + "-" + c2;
    } else {
      assert Format(r) == "lines " + l1 + "-" + l2 + ", column " + c1 + "-" + c2;
    }
  }

  /** The common tail ", column C1-C2". */
  function ColumnsPart(r: Range): string {
    ", column " + (NatToString(r.start.column) + ("-" + NatToString(r.end.column)))
  }

  lemma DropPrefix(p: string, x: string, y: string)
    requires p + x == p + y
    ensures x == y
  {
    assert x == (p + x)[|p|..];
    assert y == (p + y)[|p|..];
  }

  /** Two renderings of numbers, each followed by a non-digit or nothing, split alike. */
  lemma SplitNumber(n1: nat, rest1: string, n2: nat, rest2: string)
    requires NatToString(n1) + rest1 == NatToString(n2) + rest2
    requires rest1 == [] || !IsDigit(rest1[0])
    requires rest2 == [] || !IsDigit(rest2[0])
    ensures n1 == n2 && rest1 == rest2
  {
    DigitRunSplit(NatToString(n1), rest1, NatToString(n2), rest2);
    NatToStringInjective(n1, n2);
  }

  lemma ColumnsPartInjective(a: Range, b: Range)
    requires ColumnsPart(a) == ColumnsPart(b)
    ensures a.start.column == b.start.column && a.end.column == b.end.column
  {
    var ea, eb := NatToString(a.end.column), NatToString(b.end.column);
    DropPrefix(", column ", NatToString(a.start.column) + ("-" + ea), NatToString(b.start.column) + ("-" + eb));
    SplitNumber(a.start.column, "-" + ea, b.start.column, "-" + eb);
    DropPrefix("-", ea, eb);
    NatToStringInjective(a.end.column, b.end.column);
  }

  /** No two ranges display alike: the text determines all four numbers. */
  lemma FormatInjective(a: Range, b: Range)
    requires Format(a) == Format(b)
    ensures a == b
  {
    var ca, cb := ColumnsPart(a), ColumnsPart(b);
    assert ca[0] == ',' && cb[0] == ',';
    if a.start.line == a.end.line {
      assert b.start.line == b.end.line;
      DropPrefix("line ", NatToString(a.start.line) + ca, NatToString(b.start.line) + cb);
      SplitNumber(a.start.line, ca, b.start.line, cb);
    } else {
      assert b.start.line != b.end.line;
      var ta, tb := NatToString(a.end.line) + ca, NatToString(b.end.line) + cb;
      DropPrefix("lines ", NatToString(a.start.line) + ("-" + ta), NatToString(b.start.line) + ("-" + tb));
      SplitNumber(a.start.line, "-" + ta, b.start.line, "-" + tb);
      DropPrefix("-", ta, tb);
      SplitNumber(a.end.line, ca, b.end.line, cb);
    }
    ColumnsPartInjective(a, b);
  }
}
