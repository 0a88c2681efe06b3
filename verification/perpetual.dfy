/** The perpetual-futures contract as a state machine over its two on-chain
    values: the Merkle root committing to all positions and the liquidity
    pool. Each transition takes the current state and the caller's inputs
    and returns the next state, or the error that rejects the transaction.
    The sender is an already-authenticated public key. */
module Perpetual {
  import opened Outcomes
  import opened Scalars
  import opened MerkleWitness
  import opened Positions
  import opened Settlement

  datatype State = State(positionsRoot: Field, liquidityPool: Field)

  /** Result of opening: the next state and the position that was stored. */
  datatype Opened = Opened(state: State, position: Position)

  /** Result of closing: the next state and the amount owed to the owner. */
  datatype Closed = Closed(state: State, payout: U64)

  /** The largest allowed ratio of size to collateral. */
  const MaxLeverage: U64 := 100

  /** Deployment: the pool starts empty; the root is the zero of a freshly
      created account's state until `InitState` sets it. */
  function Init(): (s: State)
    ensures s.liquidityPool == 0
    ensures s.positionsRoot == 0
  {
    State(0, 0)
  }

  /** Overwrites the root, unconditionally and as often as called. */
  function InitState(s: State, initialRoot: Field): (r: State)
    ensures r.positionsRoot == initialRoot
    ensures r.liquidityPool == s.liquidityPool
  {
    s.(positionsRoot := initialRoot)
  }

  /** Adds `amount` to the pool in field arithmetic; never fails. */
  function Deposit(s: State, amount: U64): (r: State)
    ensures r.positionsRoot == s.positionsRoot
    ensures (r.liquidityPool - s.liquidityPool - amount) % FieldModulus == 0
    ensures s.liquidityPool + amount < FieldModulus ==> r.liquidityPool == s.liquidityPool + amount
  {
    s.(liquidityPool := FieldAdd(s.liquidityPool, ToField(amount)))
  }

  /** Opens a position of `size` backed by `amount` at `price` in the empty
      slot the witness leads to, and adds the collateral to the pool. */
  function OpenPosition(hash: Poseidon, s: State, sender: PublicKey, amount: U64, size: U64, price: U64,
                        isLong: bool, w: Witness): (r: Result<Opened>)
    ensures r.Ok? <==>
      && amount * MaxLeverage < U64Bound
      && size <= amount * MaxLeverage
      && RootFor(hash, w, EmptySlot) == s.positionsRoot
    ensures amount * MaxLeverage >= U64Bound ==> r == Err(Overflow)
    ensures amount * MaxLeverage < U64Bound && size > amount * MaxLeverage ==> r == Err(LeverageExceeded)
    ensures amount * MaxLeverage < U64Bound && size <= amount * MaxLeverage ==>
      (RootFor(hash, w, EmptySlot) != s.positionsRoot ==> r == Err(InconsistentWitness))
    ensures r.Ok? ==> r.value.position == Position(sender, amount, size, price, isLong, 1)
    ensures r.Ok? ==> r.value.state.positionsRoot == RootFor(hash, w, Hash(hash, r.value.position))
    ensures r.Ok? ==> r.value.state.liquidityPool == Deposit(s, amount).liquidityPool
  {
    var cap :- Mul(amount, MaxLeverage);
    if size > cap then
      Err(LeverageExceeded)
    else
      var position := Position(sender, amount, size, price, isLong, 1);
      var root :- VerifyAndRecompute(hash, s.positionsRoot, w, EmptySlot, Hash(hash, position));
      Ok(Opened(State(root, FieldAdd(s.liquidityPool, ToField(amount))), position))
  }

  /** The open with an entry-price check added, which the contract lacks:
      a zero price is rejected, and otherwise the open is unchanged. */
  function OpenPositionPriced(hash: Poseidon, s: State, sender: PublicKey, amount: U64, size: U64, price: U64,
                              isLong: bool, w: Witness): (r: Result<Opened>)
    ensures price == 0 ==> r == Err(ZeroEntryPrice)
    ensures price > 0 ==> r == OpenPosition(hash, s, sender, amount, size, price, isLong, w)
  {
    if price == 0 then Err(ZeroEntryPrice) else OpenPosition(hash, s, sender, amount, size, price, isLong, w)
  }

  /** Closes `position`, which the witness must show is stored in its slot:
      empties that slot and computes the payout at `closePrice`. The pool is
      read but left as it was. */
  function ClosePosition(hash: Poseidon, s: State, sender: PublicKey, position: Position, closePrice: U64,
                         w: Witness): (r: Result<Closed>)
    ensures position.owner != sender ==> r == Err(NotOwner)
    ensures position.owner == sender && position.isOpen != 1 ==> r == Err(PositionNotOpen)
    ensures position.owner == sender && position.isOpen == 1 ==>
      (RootFor(hash, w, Hash(hash, position)) != s.positionsRoot ==> r == Err(InconsistentWitness))
    ensures r.Ok? <==>
      && position.owner == sender
      && position.isOpen == 1
      && RootFor(hash, w, Hash(hash, position)) == s.positionsRoot
      && Payout(position.entryPrice, closePrice, position.size, position.collateral, position.isLong).Ok?
    ensures r.Ok? ==> r.value.state.positionsRoot == RootFor(hash, w, EmptySlot)
    ensures r.Ok? ==> r.value.state.liquidityPool == s.liquidityPool
    ensures r.Ok? ==>
      r.value.payout == Payout(position.entryPrice, closePrice, position.size, position.collateral, position.isLong).value
  {
    if position.owner != sender then
      Err(NotOwner)
    else if position.isOpen != 1 then
      Err(PositionNotOpen)
    else
      var root :- VerifyAndRecompute(hash, s.positionsRoot, w, Hash(hash, position), EmptySlot);
      var payout :- Payout(position.entryPrice, closePrice, position.size, position.collateral, position.isLong);
      Ok(Closed(s.(positionsRoot := root), payout))
  }
}

/** Closing exactly as the contract evaluates it: the same checks and slot
    update as `ClosePosition`, with the payout computed by evaluating both
    arms of the selection. */
module PerpetualAsWritten {
  import opened Outcomes
  import opened Scalars
  import opened MerkleWitness
  import opened Positions
  import opened Settlement
  import opened SettlementAsWritten
  import opened Perpetual

  function ClosePositionAsWritten(hash: Poseidon, s: State, sender: PublicKey, position: Position, closePrice: U64,
                                  w: Witness): (r: Result<Closed>)
    ensures r.Ok? ==> r == ClosePosition(hash, s, sender, position, closePrice, w)
    ensures r.Err? && ClosePosition(hash, s, sender, position, closePrice, w).Ok? ==>
      r.error == Overflow || r.error == Underflow
  {
    if position.owner != sender then
      Err(NotOwner)
    else if position.isOpen != 1 then
      Err(PositionNotOpen)
    else
      var root :- VerifyAndRecompute(hash, s.positionsRoot, w, Hash(hash, position), EmptySlot);
      var payout :- PayoutAsWritten(position.entryPrice, closePrice, position.size, position.collateral, position.isLong);
      Ok(Closed(s.(positionsRoot := root), payout))
  }

  /** Of the closes the model accepts, the contract as written accepts exactly
      those whose profit or loss is at most the collateral and whose
      collateral plus profit or loss fits in 64 bits. */
  lemma CloseAsWrittenAgreesOnlyWithinCollateral(hash: Poseidon, s: State, sender: PublicKey, position: Position,
                                                 closePrice: U64, w: Witness)
    requires ClosePosition(hash, s, sender, position, closePrice, w).Ok?
    ensures position.entryPrice > 0
    ensures ClosePositionAsWritten(hash, s, sender, position, closePrice, w).Ok? <==>
      var magnitude := Abs(SignedPnl(position.entryPrice, closePrice, position.size, position.isLong));
      magnitude <= position.collateral && position.collateral + magnitude < U64Bound
  {
    AsWrittenAgreesOnlyWithinCollateral(position.entryPrice, closePrice, position.size, position.collateral,
                                        position.isLong);
  }
}
