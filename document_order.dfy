/**
 * comparePosition: the source order of two elements, read from the bitmask that
 * `Node.compareDocumentPosition` returns (section 4.4, interface Node, of the
 * WHATWG DOM Standard), or from the legacy `sourceIndex` numbers when the host
 * has no compareDocumentPosition.
 */
module DocumentOrder {
  import opened Wrappers

  const DISCONNECTED: bv16 := 0x01
  const PRECEDING: bv16 := 0x02
  const FOLLOWING: bv16 := 0x04
  const CONTAINS: bv16 := 0x08
  const CONTAINED_BY: bv16 := 0x10
  const IMPLEMENTATION_SPECIFIC: bv16 := 0x20

  /** What the host offers for comparing the two elements. */
  datatype PositionSource =
    | Bitmask(mask: bv16)               // a.compareDocumentPosition(b)
    | SourceIndex(indexA: int, indexB: int)  // a.sourceIndex and b.sourceIndex

  /** The exception thrown for elements of different documents. */
  datatype CompareError = DifferentDocuments

  predicate HasBit(mask: bv16, bit: bv16)
  {
    mask & bit != 0
  }

  /**
   * comparePosition(a, b): 0 for the same element; with a bitmask, an error when
   * DISCONNECTED is set (checked first), 1 when b precedes or contains a, and -1
   * otherwise; without one, the raw difference of the source indexes.
   */
  function ComparePosition<N(==)>(a: N, b: N, source: PositionSource): (r: Result<int, CompareError>)
    ensures a == b ==> r == Ok(0)
    ensures a != b && source.Bitmask? ==>
              && (r.Err? <==> HasBit(source.mask, DISCONNECTED))
              && (r.Ok? ==> r.value in {1, -1})
              && (r == Ok(1) <==> !HasBit(source.mask, DISCONNECTED)
                                  && (HasBit(source.mask, PRECEDING) || HasBit(source.mask, CONTAINS)))
    ensures a != b && source.SourceIndex? ==> r == Ok(source.indexA - source.indexB)
  {
    if a == b then Ok(0)
    else
      match source
      case SourceIndex(ia, ib) => Ok(ia - ib)
      case Bitmask(cmp) =>
        if HasBit(cmp, DISCONNECTED) then Err(DifferentDocuments)
        else if HasBit(cmp, PRECEDING) || HasBit(cmp, CONTAINS) then Ok(1)
        else Ok(-1)
  }

  /** Where `other` stands relative to the reference node, in the terms of the standard. */
  datatype Relation =
    | OtherPrecedes          // other comes first in tree order, not an ancestor
    | OtherFollows           // other comes later in tree order, not a descendant
    | OtherIsAncestor        // other is a strict ancestor of the reference
    | OtherIsDescendant      // other is a strict descendant of the reference
    | Disconnected(otherFirst: bool)  // different trees; the order is implementation-specific

  /** The bitmask `reference.compareDocumentPosition(other)` returns for a relation between two distinct nodes. */
  function PositionMask(rel: Relation): bv16
  {
    match rel
    case OtherPrecedes => PRECEDING
    case OtherFollows => FOLLOWING
    case OtherIsAncestor => CONTAINS | PRECEDING
    case OtherIsDescendant => CONTAINED_BY | FOLLOWING
    case Disconnected(otherFirst) =>
      DISCONNECTED | IMPLEMENTATION_SPECIFIC | (if otherFirst then PRECEDING else FOLLOWING)
  }

  /** The relation seen from the other node. */
  function Converse(rel: Relation): Relation
  {
    match rel
    case OtherPrecedes => OtherFollows
    case OtherFollows => OtherPrecedes
    case OtherIsAncestor => OtherIsDescendant
    case OtherIsDescendant => OtherIsAncestor
    case Disconnected(otherFirst) => Disconnected(!otherFirst)
  }

  /**
   * For every bitmask the standard can return for two distinct nodes, the result
   * is: 1 when `a` comes after `b` in tree order (b precedes a or is its
   * ancestor), -1 when `a` comes first, and the error when they are in
   * different trees.
   */
  lemma CompareStandardMask<N>(a: N, b: N, rel: Relation)
    requires a != b
    ensures ComparePosition(a, b, Bitmask(PositionMask(rel))) ==
              match rel
              case OtherPrecedes => Ok(1)
              case OtherIsAncestor => Ok(1)
              case OtherFollows => Ok(-1)
              case OtherIsDescendant => Ok(-1)
              case Disconnected(_) => Err(DifferentDocuments)
  {
  }

  /** Swapping the two connected elements flips the sign of the result. */
  lemma CompareAntisymmetric<N>(a: N, b: N, rel: Relation)
    requires a != b && !rel.Disconnected?
    ensures ComparePosition(a, b, Bitmask(PositionMask(rel))).Ok?
    ensures ComparePosition(b, a, Bitmask(PositionMask(Converse(rel)))).Ok?
    ensures ComparePosition(a, b, Bitmask(PositionMask(rel))).value
            == -ComparePosition(b, a, Bitmask(PositionMask(Converse(rel)))).value
  {
    CompareStandardMask(a, b, rel);
    CompareStandardMask(b, a, Converse(rel));
  }

  /** The legacy source-index path is antisymmetric too. */
  lemma SourceIndexAntisymmetric<N>(a: N, b: N, ia: int, ib: int)
    ensures ComparePosition(a, b, SourceIndex(ia, ib)).value == -ComparePosition(b, a, SourceIndex(ib, ia)).value
  {
  }
}
