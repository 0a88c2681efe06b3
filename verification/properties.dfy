/** Properties relating several transitions of the contract. */
module PerpetualProperties {
  import opened Outcomes
  import opened Scalars
  import opened MerkleWitness
  import opened Positions
  import opened Settlement
  import opened Perpetual

  /** Opening a position and then closing it with the same witness gives the
      root back as it was before the open; the pool keeps the collateral.
      The close succeeds exactly when the payout can be computed, and at the
      entry price (if nonzero) it pays back the collateral. */
  lemma OpenThenCloseRestoresRoot(hash: Poseidon, s: State, sender: PublicKey, amount: U64, size: U64,
                                  price: U64, isLong: bool, w: Witness, closePrice: U64)
    requires OpenPosition(hash, s, sender, amount, size, price, isLong, w).Ok?
    ensures
      var afterOpen := OpenPosition(hash, s, sender, amount, size, price, isLong, w).value;
      var closed := ClosePosition(hash, afterOpen.state, sender, afterOpen.position, closePrice, w);
      && (closed.Ok? <==> Payout(price, closePrice, size, amount, isLong).Ok?)
      && (closed.Ok? ==> closed.value.state == Deposit(s, amount))
      && (price > 0 ==> ClosePosition(hash, afterOpen.state, sender, afterOpen.position, price, w)
                        == Ok(Closed(Deposit(s, amount), amount)))
  {
  }

  /** Replaying an open with the same witness against the root it produced
      fails: the slot is no longer empty. This needs the stored commitment to
      differ from the empty value and the hash to be collision resistant
      along the path. */
  lemma ReplayedOpenFails(hash: Poseidon, s: State, sender: PublicKey, amount: U64, size: U64,
                          price: U64, isLong: bool, w: Witness)
    requires ChildInjective(hash)
    requires OpenPosition(hash, s, sender, amount, size, price, isLong, w).Ok?
    requires Hash(hash, OpenPosition(hash, s, sender, amount, size, price, isLong, w).value.position) != EmptySlot
    ensures
      var afterOpen := OpenPosition(hash, s, sender, amount, size, price, isLong, w).value;
      OpenPosition(hash, afterOpen.state, sender, amount, size, price, isLong, w) == Err(InconsistentWitness)
  {
    var afterOpen := OpenPosition(hash, s, sender, amount, size, price, isLong, w).value;
    RootForInjective(hash, w, EmptySlot, Hash(hash, afterOpen.position));
  }

  /** More generally, no open at all succeeds with that witness afterwards. */
  lemma NoOpenIntoOccupiedSlot(hash: Poseidon, s: State, sender: PublicKey, amount: U64, size: U64,
                               price: U64, isLong: bool, w: Witness,
                               sender2: PublicKey, amount2: U64, size2: U64, price2: U64, isLong2: bool)
    requires ChildInjective(hash)
    requires OpenPosition(hash, s, sender, amount, size, price, isLong, w).Ok?
    requires Hash(hash, OpenPosition(hash, s, sender, amount, size, price, isLong, w).value.position) != EmptySlot
    ensures
      var afterOpen := OpenPosition(hash, s, sender, amount, size, price, isLong, w).value;
      OpenPosition(hash, afterOpen.state, sender2, amount2, size2, price2, isLong2, w).Err?
  {
    var afterOpen := OpenPosition(hash, s, sender, amount, size, price, isLong, w).value;
    RootForInjective(hash, w, EmptySlot, Hash(hash, afterOpen.position));
  }

  /** Closing the same position twice with the same witness fails the second
      time, at any price: its slot was emptied by the first close. */
  lemma SecondCloseFails(hash: Poseidon, s: State, sender: PublicKey, position: Position, closePrice: U64,
                         w: Witness, closePrice2: U64)
    requires ChildInjective(hash)
    requires Hash(hash, position) != EmptySlot
    requires ClosePosition(hash, s, sender, position, closePrice, w).Ok?
    ensures
      var closed := ClosePosition(hash, s, sender, position, closePrice, w).value;
      ClosePosition(hash, closed.state, sender, position, closePrice2, w) == Err(InconsistentWitness)
  {
    RootForInjective(hash, w, EmptySlot, Hash(hash, position));
  }

  /** Opening accepts an entry price of zero, but such a position can never
      be closed: settlement divides by the entry price. */
  lemma ZeroPricePositionNeverCloses(hash: Poseidon, s: State, sender: PublicKey, amount: U64, size: U64,
                                     isLong: bool, w: Witness, s2: State, closePrice: U64, w2: Witness)
    requires OpenPosition(hash, s, sender, amount, size, 0, isLong, w).Ok?
    ensures
      var afterOpen := OpenPosition(hash, s, sender, amount, size, 0, isLong, w).value;
      ClosePosition(hash, s2, sender, afterOpen.position, closePrice, w2).Err?
  {
  }

  /** With the entry-price check added, every opened position can be
      settled: wherever a witness shows it stored, its owner can close it at
      the entry price and gets the collateral back. */
  lemma PricedOpenIsClosable(hash: Poseidon, s: State, sender: PublicKey, amount: U64, size: U64, price: U64,
                             isLong: bool, w: Witness, s2: State, w2: Witness)
    requires OpenPositionPriced(hash, s, sender, amount, size, price, isLong, w).Ok?
    requires
      var position := OpenPositionPriced(hash, s, sender, amount, size, price, isLong, w).value.position;
      RootFor(hash, w2, Hash(hash, position)) == s2.positionsRoot
    ensures
      var position := OpenPositionPriced(hash, s, sender, amount, size, price, isLong, w).value.position;
      ClosePosition(hash, s2, sender, position, price, w2)
        == Ok(Closed(s2.(positionsRoot := RootFor(hash, w2, EmptySlot)), amount))
  {
  }

  /** The state after a sequence of deposits, in order. */
  function Deposits(s: State, amounts: seq<U64>): State
    decreases |amounts|
  {
    if |amounts| == 0 then s else Deposits(Deposit(s, amounts[0]), amounts[1..])
  }

  function Sum(amounts: seq<U64>): nat
    decreases |amounts|
  {
    if |amounts| == 0 then 0 else amounts[0] + Sum(amounts[1..])
  }

  /** Deposits accumulate: the pool ends at its start plus the total
      deposited, modulo the field prime, and the root never moves. */
  lemma {:induction false} DepositsAccumulate(s: State, amounts: seq<U64>)
    ensures Deposits(s, amounts).positionsRoot == s.positionsRoot
    ensures Deposits(s, amounts).liquidityPool == (s.liquidityPool + Sum(amounts)) % FieldModulus
    decreases |amounts|
  {
    if |amounts| > 0 {
      var s1 := Deposit(s, amounts[0]);
      DepositsAccumulate(s1, amounts[1..]);
      ModAddAbsorbLeft(s.liquidityPool + amounts[0], Sum(amounts[1..]));
    }
  }

  lemma ModAddAbsorbLeft(a: nat, b: nat)
    ensures ((a % FieldModulus) + b) % FieldModulus == (a + b) % FieldModulus
  {
  }

  /** The two worked examples of the settlement rule: a 10x long of 100 at
      50 pays 200 when closed at 55 and 0 when closed at 45. */
  lemma WorkedExamples()
    ensures Payout(50, 55, 1000, 100, true) == Ok(200)
    ensures Payout(50, 45, 1000, 100, true) == Ok(0)
    ensures Payout(50, 45, 1000, 100, false) == Ok(200)
  {
  }
}
