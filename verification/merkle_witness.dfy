/** The authenticated store of positions: a Merkle map committed to by one
    root. A witness is the path from one slot to the root, given as the
    sibling at every level and whether the running node is the left child.
    The hash is the Poseidon permutation, kept uninterpreted: every member
    takes it as a parameter and nothing is assumed about it unless a lemma
    says so in its `requires`. */
module MerkleWitness {
  import opened Outcomes
  import opened Scalars

  /** The uninterpreted Poseidon hash of a list of field elements. */
  type Poseidon = seq<Field> -> Field

  /** The value of an empty slot. */
  const EmptySlot: Field := 0

  /** One level of a witness path, leaf level first. */
  datatype PathStep = PathStep(isLeft: bool, sibling: Field)

  type Witness = seq<PathStep>

  /** The node one level up: the running node goes left when `isLeft`. */
  function Parent(hash: Poseidon, step: PathStep, node: Field): (p: Field)
    ensures step.isLeft ==> p == hash([node, step.sibling])
    ensures !step.isLeft ==> p == hash([step.sibling, node])
  {
    var left := if step.isLeft then node else step.sibling;
    var right := if step.isLeft then step.sibling else node;
    hash([left, right])
  }

  /** The root a witness computes for the value `leaf` in its slot:
      a fold of `Parent` over the path, from the leaf level upwards. */
  function RootFor(hash: Poseidon, w: Witness, leaf: Field): Field
    decreases |w|
  {
    if |w| == 0 then leaf else RootFor(hash, w[1..], Parent(hash, w[0], leaf))
  }

  /** The path is read from the leaf level up: the last step of a witness
      is the one just below the root. */
  lemma {:induction false} RootForTopStep(hash: Poseidon, w: Witness, step: PathStep, leaf: Field)
    ensures RootFor(hash, w + [step], leaf) == Parent(hash, step, RootFor(hash, w, leaf))
    decreases |w|
  {
    if |w| > 0 {
      assert (w + [step])[1..] == w[1..] + [step];
      RootForTopStep(hash, w[1..], step, Parent(hash, w[0], leaf));
    }
  }

  /** Collision resistance, stated only as much as the lemmas need: with the
      sibling fixed, distinct children have distinct parents. */
  ghost predicate ChildInjective(hash: Poseidon) {
    forall step: PathStep, a: Field, b: Field ::
      Parent(hash, step, a) == Parent(hash, step, b) ==> a == b
  }

  /** Under that assumption, a witness binds its root to one leaf value. */
  lemma {:induction false} RootForInjective(hash: Poseidon, w: Witness, a: Field, b: Field)
    requires ChildInjective(hash)
    ensures RootFor(hash, w, a) == RootFor(hash, w, b) <==> a == b
    decreases |w|
  {
    if |w| > 0 {
      RootForInjective(hash, w[1..], Parent(hash, w[0], a), Parent(hash, w[0], b));
    }
  }

  /** The read-modify-write of one slot: the witness must lead from `before` to
      `root`; the same witness then gives the root with `after` in that slot. */
  function VerifyAndRecompute(hash: Poseidon, root: Field, w: Witness, before: Field, after: Field): (r: Result<Field>)
    ensures r.Ok? <==> RootFor(hash, w, before) == root
    ensures r.Err? ==> r.error == InconsistentWitness
    ensures r.Ok? ==> r.value == RootFor(hash, w, after)
  {
    if RootFor(hash, w, before) == root then Ok(RootFor(hash, w, after)) else Err(InconsistentWitness)
  }

  /** Writing `after` over `before` and then `before` over `after` with the same witness
      restores the root. */
  lemma UpdateRoundTrip(hash: Poseidon, root: Field, w: Witness, before: Field, after: Field)
    requires VerifyAndRecompute(hash, root, w, before, after).Ok?
    ensures VerifyAndRecompute(hash, VerifyAndRecompute(hash, root, w, before, after).value, w, after, before) == Ok(root)
  {
  }

  /** After a write, the same witness no longer accepts the before value (under
      collision resistance): a stale witness replayed after a write fails. */
  lemma StaleAfterUpdate(hash: Poseidon, root: Field, w: Witness, before: Field, after: Field, next: Field)
    requires ChildInjective(hash)
    requires before != after
    requires VerifyAndRecompute(hash, root, w, before, after).Ok?
    ensures VerifyAndRecompute(hash, VerifyAndRecompute(hash, root, w, before, after).value, w, before, next)
            == Err(InconsistentWitness)
  {
    RootForInjective(hash, w, before, after);
  }
}
