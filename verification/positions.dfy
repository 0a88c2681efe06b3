/** A trading position and its commitment, the value stored in its slot of
    the Merkle map. */
module Positions {
  import opened Scalars
  import opened MerkleWitness

  /** A public key as a curve point in compressed form: its x-coordinate and
      the parity of its y-coordinate. */
  datatype PublicKey = PublicKey(x: Field, isOdd: bool)

  /** A position. `isOpen` is a field element that is 1 while open; the
      direction flag is 1 (true) for a long and 0 (false) for a short. */
  datatype Position = Position(
    owner: PublicKey,
    collateral: U64,
    size: U64,
    entryPrice: U64,
    isLong: bool,
    isOpen: Field)

  /** A boolean as the field element 1 or 0. */
  function BoolField(b: bool): (f: Field)
    ensures f == 0 <==> !b
    ensures f <= 1
  {
    if b then 1 else 0
  }

  /** The field elements a key contributes to a hash. */
  function KeyFields(k: PublicKey): (fs: seq<Field>)
    ensures |fs| == 2
  {
    [k.x, BoolField(k.isOdd)]
  }

  /** The hash input: all six fields in declaration order. */
  function Fields(p: Position): (fs: seq<Field>)
    ensures |fs| == 7
    ensures fs[..2] == KeyFields(p.owner)
    ensures fs[2] == p.collateral && fs[3] == p.size && fs[4] == p.entryPrice
    ensures fs[5] == BoolField(p.isLong) && fs[6] == p.isOpen
  {
    KeyFields(p.owner) + [ToField(p.collateral), ToField(p.size), ToField(p.entryPrice), BoolField(p.isLong), p.isOpen]
  }

  /** The commitment of a position. */
  function Hash(hash: Poseidon, p: Position): Field {
    hash(Fields(p))
  }

  /** Where Poseidon has no collision between the two inputs, equal
      commitments mean equal positions: every field is bound. */
  lemma HashBindsPosition(hash: Poseidon, p: Position, q: Position)
    requires hash(Fields(p)) == hash(Fields(q)) ==> Fields(p) == Fields(q)
    ensures Hash(hash, p) == Hash(hash, q) <==> p == q
  {
    FieldsInjective(p, q);
  }

  /** The hash input loses nothing: two positions with the same input are the
      same position, so distinct positions are hashed from distinct inputs. */
  lemma FieldsInjective(p: Position, q: Position)
    ensures Fields(p) == Fields(q) <==> p == q
  {
  }
}
