/**
 * The concrete values of the repository's hash tests, checked against the
 * model: construction, the integer half of encoding, zooming and moves from
 * the hash 135222385806149 at precision 24.
 */
module Vectors {
  import opened Bitops
  import opened Geohashi

  /** The hash of the zoom-in and move tests. */
  const Base: Hash := Hash(135222385806149, 24)

  lemma NewVectors()
    ensures NewWithPrecision(1, 1) == Success(Hash(1, 1))
    ensures NewWithPrecision(2163558172898388, 26) == Success(Hash(2163558172898388, 26))
    ensures New(2163558172898388) == Hash(2163558172898388, 26)
    ensures EncodeWithPrecision(53881966, 33538752, 0) == Failure(InvalidPrecision)
    ensures EncodeWithPrecision(53881966, 33538752, 27) == Failure(InvalidPrecision)
  {
  }

  /** The grid cells of the test coordinate encode to the expected hash. */
  lemma EncodeVector()
    ensures Encode(53881966, 33538752) == Hash(2163558172898388, 26)
    ensures Cells(Hash(2163558172898388, 26)) == (53881966, 33538752)
  {
  }

  lemma ParentVectors()
    ensures Parent(Hash(2163558172898388, 26)) == Success(Hash(540889543224597, 25))
    ensures Parent(Hash(540889543224597, 25)) == Success(Base)
    ensures Parent(Hash(0, 1)) == Failure(InvalidPrecision)
  {
  }

  lemma ChildrenVector()
    ensures Children(Base) == [Hash(540889543224596, 25), Hash(540889543224597, 25),
                               Hash(540889543224598, 25), Hash(540889543224599, 25)]
  {
  }

  lemma MoveVectors()
    ensures MoveX(Base, 1) == Hash(135222385806151, 24)
    ensures MoveX(Base, -1) == Hash(135222385805807, 24)
    ensures MoveY(Base, 1) == Hash(135222385806160, 24)
    ensures MoveY(Base, -1) == Hash(135222385806148, 24)
  {
  }

  /** The composition checks of the move tests. */
  lemma MoveLawVectors()
    ensures MoveX(MoveX(Base, 1), 1) == MoveX(Base, 2)
    ensures MoveX(MoveX(Base, 1), -1) == Base
    ensures MoveX(MoveX(Base, -1), 1) == Base
    ensures MoveX(MoveX(Base, -1), -1) == MoveX(Base, -2)
    ensures MoveY(MoveY(Base, 1), 1) == MoveY(Base, 2)
    ensures MoveY(MoveY(Base, 1), -1) == Base
    ensures MoveY(MoveY(Base, -1), 1) == Base
    ensures MoveY(MoveY(Base, -1), -1) == MoveY(Base, -2)
  {
  }
}
