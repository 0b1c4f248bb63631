/**
 * Three-way comparison as Rust's derived `Ord` defines it: numbers and characters by value,
 * strings and vectors lexicographically, structs field by field in declaration order.
 */
module Ordering {

  datatype Ordering = Less | Equal | Greater {

    function Reverse(): Ordering {
      match this
      case Less => Greater
      case Equal => Equal
      case Greater => Less
    }

    /** Rust's `Ordering::then`: this ordering, unless it is `Equal`. */
    function Then(other: Ordering): Ordering {
      if this == Equal then other else this
    }
  }

  /** `cmp` is a total order consistent with equality. */
  ghost predicate IsTotalOrder<T(!new)>(cmp: (T, T) -> Ordering) {
    && (forall x, y :: cmp(x, y) == Equal <==> x == y)
    && (forall x, y :: cmp(y, x) == cmp(x, y).Reverse())
    && (forall x, y, z :: cmp(x, y) == Less && cmp(y, z) == Less ==> cmp(x, z) == Less)
  }

  function CompareNat(a: nat, b: nat): Ordering {
    if a < b then Less else if a == b then Equal else Greater
  }

  /** Characters compare by code point, which is also the order of their UTF-8 bytes. */
  function CompareChar(a: char, b: char): Ordering {
    if a < b then Less else if a == b then Equal else Greater
  }

  /** Lexicographic order on sequences; a proper prefix comes first. */
  function CompareSeq<T>(cmp: (T, T) -> Ordering, a: seq<T>, b: seq<T>): Ordering
    decreases |a|
  {
    if a == [] then (if b == [] then Equal else Less)
    else if b == [] then Greater
    else cmp(a[0], b[0]).Then(CompareSeq(cmp, a[1..], b[1..]))
  }

  function CompareString(a: string, b: string): Ordering {
    CompareSeq(CompareChar, a, b)
  }

  function CompareStrings(a: seq<string>, b: seq<string>): Ordering {
    CompareSeq(CompareString, a, b)
  }

  lemma CompareNatIsTotalOrder()
    ensures IsTotalOrder(CompareNat)
  {
  }

  lemma CompareCharIsTotalOrder()
    ensures IsTotalOrder(CompareChar)
  {
  }

  lemma {:induction false} CompareSeqEqual<T(!new)>(cmp: (T, T) -> Ordering, a: seq<T>, b: seq<T>)
    requires IsTotalOrder(cmp)
    ensures CompareSeq(cmp, a, b) == Equal <==> a == b
    decreases |a|
  {
    if a != [] && b != [] {
      CompareSeqEqual(cmp, a[1..], b[1..]);
      assert a == [a[0]] + a[1..] && b == [b[0]] + b[1..];
    }
  }

  lemma {:induction false} CompareSeqReverse<T(!new)>(cmp: (T, T) -> Ordering, a: seq<T>, b: seq<T>)
    requires IsTotalOrder(cmp)
    ensures CompareSeq(cmp, b, a) == CompareSeq(cmp, a, b).Reverse()
    decreases |a|
  {
    if a != [] && b != [] {
      CompareSeqReverse(cmp, a[1..], b[1..]);
    }
  }

  lemma {:induction false} CompareSeqTransitive<T(!new)>(cmp: (T, T) -> Ordering, a: seq<T>, b: seq<T>, c: seq<T>)
    requires IsTotalOrder(cmp)
    requires CompareSeq(cmp, a, b) == Less && CompareSeq(cmp, b, c) == Less
    ensures CompareSeq(cmp, a, c) == Less
    decreases |a|
  {
    if a != [] && b != [] && c != [] && cmp(a[0], b[0]) == Equal && cmp(b[0], c[0]) == Equal {
      CompareSeqTransitive(cmp, a[1..], b[1..], c[1..]);
    }
  }

  /** The lexicographic extension of a total order is a total order. */
  lemma CompareSeqIsTotalOrder<T(!new)>(cmp: (T, T) -> Ordering)
    requires IsTotalOrder(cmp)
    ensures forall a, b :: CompareSeq(cmp, a, b) == Equal <==> a == b
    ensures forall a, b :: CompareSeq(cmp, b, a) == CompareSeq(cmp, a, b).Reverse()
    ensures forall a, b, c :: CompareSeq(cmp, a, b) == Less && CompareSeq(cmp, b, c) == Less ==> CompareSeq(cmp, a, c) == Less
  {
    forall a: seq<T>, b: seq<T> ensures CompareSeq(cmp, a, b) == Equal <==> a == b {
      CompareSeqEqual(cmp, a, b);
    }
    forall a: seq<T>, b: seq<T> ensures CompareSeq(cmp, b, a) == CompareSeq(cmp, a, b).Reverse() {
      CompareSeqReverse(cmp, a, b);
    }
    forall a: seq<T>, b: seq<T>, c: seq<T> | CompareSeq(cmp, a, b) == Less && CompareSeq(cmp, b, c) == Less
      ensures CompareSeq(cmp, a, c) == Less
    {
      CompareSeqTransitive(cmp, a, b, c);
    }
  }

  lemma CompareStringIsTotalOrder()
    ensures IsTotalOrder(CompareString)
  {
    CompareCharIsTotalOrder();
    CompareSeqIsTotalOrder(CompareChar);
  }

  lemma CompareStringsIsTotalOrder()
    ensures IsTotalOrder(CompareStrings)
  {
    CompareStringIsTotalOrder();
    CompareSeqIsTotalOrder(CompareString);
  }

  /** Struct comparison: the field comparisons in declaration order, the first non-`Equal` wins. */
  function Lex(fields: seq<Ordering>): Ordering
    decreases |fields|
  {
    if fields == [] then Equal else fields[0].Then(Lex(fields[1..]))
  }

  /**
   * Three field comparisons `ab`, `bc`, `ac` of values `a`, `b`, `c` are consistent when they
   * come from a total order: `Less` chains, and `Equal` can be substituted.
   */
  predicate Consistent(ab: Ordering, bc: Ordering, ac: Ordering) {
    && (ab == Less && bc == Less ==> ac == Less)
    && (ab == Equal ==> ac == bc)
    && (bc == Equal ==> ac == ab)
  }

  lemma TotalOrderIsConsistent<T(!new)>(cmp: (T, T) -> Ordering, a: T, b: T, c: T)
    requires IsTotalOrder(cmp)
    ensures Consistent(cmp(a, b), cmp(b, c), cmp(a, c))
  {
  }

  /** Field-wise consistent comparisons give a transitive struct comparison. */
  lemma {:induction false} LexTransitive(ab: seq<Ordering>, bc: seq<Ordering>, ac: seq<Ordering>)
    requires |ab| == |bc| == |ac|
    requires forall k | 0 <= k < |ab| :: Consistent(ab[k], bc[k], ac[k])
    ensures Lex(ab) == Less && Lex(bc) == Less ==> Lex(ac) == Less
    decreases |ab|
  {
    if ab != [] {
      LexTransitive(ab[1..], bc[1..], ac[1..]);
    }
  }

  /** A struct comparison is `Equal` exactly when every field comparison is. */
  lemma {:induction false} LexEqual(fields: seq<Ordering>)
    ensures Lex(fields) == Equal <==> forall k | 0 <= k < |fields| :: fields[k] == Equal
    decreases |fields|
  {
    if fields != [] {
      LexEqual(fields[1..]);
      assert forall k | 1 <= k < |fields| :: fields[k] == fields[1..][k - 1];
    }
  }

  /** Reversing every field comparison reverses the struct comparison. */
  lemma {:induction false} LexReverse(fields: seq<Ordering>, reversed: seq<Ordering>)
    requires |reversed| == |fields|
    requires forall k | 0 <= k < |fields| :: reversed[k] == fields[k].Reverse()
    ensures Lex(reversed) == Lex(fields).Reverse()
    decreases |fields|
  {
    if fields != [] {
      LexReverse(fields[1..], reversed[1..]);
    }
  }
}
