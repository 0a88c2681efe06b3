# Perpetual-futures zkApp: a Dafny model

This project models the `Perpetual` smart contract of a leveraged
perpetual-futures exchange on a Mina-style zkApp chain. The contract keeps two
on-chain values: `positionsRoot`, the root of a Merkle map whose slots hold the
Poseidon commitments of open positions, and `liquidityPool`, a native field
element. It has four transitions: `initState` overwrites the root, `deposit`
adds to the pool, `openPosition` checks the 100x leverage bound, proves the
chosen slot empty, stores the new position's commitment and adds its collateral
to the pool, and `closePosition` checks ownership and the open flag, proves the
position is stored, computes the payout and empties the slot.

Each transition is a pure function from the current `State` to a `Result`:
either the next state (with the stored position or the payout) or the error
that rejects the transaction. The contract itself returns neither the position
nor the payout: `openPosition` builds the position only to hash it, and
`closePosition` computes `payout` (`src/Perpetual.ts:92`) but never uses it.
The model exposes both values. For the payout, only its range checks affect
whether a close is accepted. The Poseidon hash is not modelled: every member
takes it as a parameter `hash: seq<Field> -> Field`, so every property holds
for any hash function. A Merkle parent is `hash([left, right])` and a position
commitment is `hash` of its seven field elements in declaration order. Where a
lemma needs collision resistance it says so in its `requires`
(`ChildInjective`: with the sibling fixed, distinct children give distinct
parents). A witness is the list of `(isLeft, sibling)` pairs from the leaf
level up, and `RootFor` folds the parent step over it. Open and close use one
witness for the check and for the update, and the model keeps that: the check
value and the new value always sit in the same slot.

Files:
- `outcomes.dfy`: the error kinds and the `Result` type.
- `scalars.dfy`: field elements (modulo the Pallas base-field prime) and 64-bit
  unsigned integers with checked add, sub, mul and floor division.
- `merkle_witness.dfy`: witnesses, `RootFor`, and the check-then-recompute step.
- `positions.dfy`: public keys, positions and their commitment.
- `settlement.dfy`: the payout computation, a signed reference for it, and the
  payout exactly as the contract evaluates it (see Findings).
- `perpetual.dfy`: the state and the four transitions, an open with an added
  entry-price check, and the close exactly as the contract evaluates it.
- `properties.dfy`: properties that relate several transitions.

`Deposit` adds with field addition (`src/Perpetual.ts:33`, `:63`), which
wraps modulo the field prime, so it never fails.

Assumptions about the o1js library, whose source is not part of this model:
- `UInt64` `add` and `mul` fail above 2^64 - 1, `sub` fails below zero, and
  `div` rounds down and fails on a zero divisor.
- A `PublicKey` hashes as its two fields `[x, isOdd]`, and `UInt64` hashes as
  its single field.
- A freshly deployed contract has every state field zero, so the root is 0
  until `initState` runs.

## Model

| member | source | states |
|---|---|---|
| Scalars.FieldAdd | src/Perpetual.ts:33 | field addition gives the plain sum below the prime and wraps by exactly one prime above it |
| MerkleWitness.RootForTopStep | src/Perpetual.ts:59-61 | `RootFor` folds the witness from the leaf level up: appending a step adds one level just below the root |
| MerkleWitness.RootForInjective | src/Perpetual.ts:59-61 | if the hash is collision resistant per level, a witness computes equal roots for two leaf values only when the values are equal |
| MerkleWitness.VerifyAndRecompute | src/Perpetual.ts:58-62 | the update succeeds exactly when the witness leads from the old slot value to the current root, and it then gives the root with the new value in the same slot |
| MerkleWitness.UpdateRoundTrip | src/Perpetual.ts:58-62 | writing a new value and then the old one back with the same witness restores the original root |
| MerkleWitness.StaleAfterUpdate | src/Perpetual.ts:58-62 | after a write, the same witness no longer accepts the overwritten value |
| Positions.Fields | src/Perpetual.ts:10-19 | the input that `Positions.Hash` gives to Poseidon is seven field elements: the owner's two, then collateral, size, entry price, direction and open flag, in that order |
| Positions.HashBindsPosition | src/Perpetual.ts:10-19 | where Poseidon has no collision between two positions' inputs, the positions have equal commitments if and only if they are equal |
| Positions.FieldsInjective | src/Perpetual.ts:10-19 | two positions have the same hash input if and only if they are the same position |
| Settlement.PriceDiff | src/Perpetual.ts:81-83 | the larger price minus the smaller is the absolute price move, so it never underflows |
| Settlement.Payout | src/Perpetual.ts:81-95 | fails on a zero entry price; pays at least the collateral on a profit and at most it on a loss; an unchanged price pays back the collateral exactly |
| Settlement.PayoutMatchesSignedPnl | src/Perpetual.ts:78-95 | the unsigned computation equals collateral plus the signed PnL (price move times size over entry price, rounded toward zero), floored at zero; it fails exactly when the entry price is zero or a 64-bit value overflows |
| Settlement.IsProfit | src/Perpetual.ts:84-86 | a profit needs a price move, and it is a rise for a long and a fall for a short |
| Settlement.ExactlyOneSideProfits | src/Perpetual.ts:84-86 | on any price move exactly one of long and short profits; on an unchanged price neither does |
| Settlement.SignedPnlMagnitude | src/Perpetual.ts:84-87 | the signed PnL is the unsigned magnitude when `Settlement.IsProfit` holds and its negation otherwise |
| Settlement.PayoutMonotoneLong | src/Perpetual.ts:81-95 | for a long, a higher closing price never gives a smaller payout |
| Settlement.PayoutMonotoneShort | src/Perpetual.ts:81-95 | for a short, a higher closing price never gives a larger payout |
| Settlement.LossFloor | src/Perpetual.ts:94 | a loss larger than the collateral pays exactly zero |
| SettlementAsWritten.PayoutAsWritten | src/Perpetual.ts:92-95 | with both arms of the selection evaluated, whenever a payout is produced it equals the intended one |
| SettlementAsWritten.AsWrittenAgreesOnlyWithinCollateral | src/Perpetual.ts:92-95 | where the intended payout exists, the as-written evaluation succeeds exactly when the PnL is at most the collateral and collateral plus PnL fits in 64 bits |
| SettlementAsWritten.AsWrittenRejectsLargeMoves | src/Perpetual.ts:92-95 | concrete inputs where the intended payout is 0 or 300 and the as-written evaluation underflows |
| Perpetual.Init | src/Perpetual.ts:24-27 | the pool starts at zero |
| Perpetual.InitState | src/Perpetual.ts:28-30 | the root becomes the given value and the pool is unchanged |
| Perpetual.Deposit | src/Perpetual.ts:31-34 | the root is unchanged and the pool grows by the amount modulo the field prime, exactly by the amount when no wrap occurs |
| Perpetual.OpenPosition | src/Perpetual.ts:35-64 | succeeds exactly when amount times 100 fits in 64 bits, size is at most that product and the witness shows an empty slot; an overflow, excess leverage or a witness not showing an empty slot each gives its own error; on success it stores the position owned by the sender with the given collateral, size, price and direction and open flag 1 in that slot, and the pool grows as a deposit of the amount |
| Perpetual.ClosePosition | src/Perpetual.ts:65-114 | fails for a non-owner or a position not open whatever the witness, and with an inconsistent-witness error when the witness does not show the position stored; succeeds exactly when the witness shows the position stored and the payout exists; then empties that slot, exposes the payout the contract computes and discards, and leaves the pool unchanged |
| Perpetual.OpenPositionPriced | src/Perpetual.ts:35-64 | the open with an entry-price check the contract lacks: a zero price is rejected, and any other price opens exactly as the contract does |
| PerpetualAsWritten.ClosePositionAsWritten | src/Perpetual.ts:65-114 | the close with both payout arms evaluated: whenever it succeeds it agrees with the intended close, and where the intended close succeeds it can only fail on a 64-bit overflow or underflow |
| PerpetualAsWritten.CloseAsWrittenAgreesOnlyWithinCollateral | src/Perpetual.ts:92-95 | of the closes the intended model accepts, the contract as written accepts exactly those whose PnL is at most the collateral and whose collateral plus PnL fits in 64 bits |
| PerpetualProperties.OpenThenCloseRestoresRoot | src/Perpetual.ts:58-113 | opening and then closing with the same witness restores the pre-open root, the pool keeps the collateral, and closing at the entry price pays the collateral back |
| PerpetualProperties.ReplayedOpenFails | src/Perpetual.ts:58-62 | replaying an open with the same witness against the root it produced fails with an inconsistent witness, given a nonzero commitment and a collision-resistant hash |
| PerpetualProperties.NoOpenIntoOccupiedSlot | src/Perpetual.ts:58-62 | after an open, no open of any position succeeds with that witness |
| PerpetualProperties.SecondCloseFails | src/Perpetual.ts:74-113 | closing the same position twice with the same witness fails the second time at any price |
| PerpetualProperties.ZeroPricePositionNeverCloses | src/Perpetual.ts:49-87 | an open at entry price zero succeeds, but that position can never be closed |
| PerpetualProperties.PricedOpenIsClosable | src/Perpetual.ts:49-87 | with the entry-price check, a position can always be closed by its owner at its entry price wherever a witness shows it stored, and the owner gets the collateral back |
| PerpetualProperties.DepositsAccumulate | src/Perpetual.ts:31-34 | a sequence of deposits leaves the root alone and adds their total to the pool modulo the field prime |
| PerpetualProperties.WorkedExamples | src/Perpetual.ts:81-95 | a 10x long of 100 entered at 50 pays 200 when closed at 55 and 0 at 45; the matching short pays 200 at 45 |

## Left out

- Poseidon and the Merkle map's internals are not modelled. The hash is a parameter, and collision resistance is assumed only in the `requires` of the lemmas that need it.
- The slot key that `computeRootAndKey` also returns is discarded by the contract (`src/Perpetual.ts:59`, `:61`, `:75`, `:112`), so the model has no key. The witness length is not fixed to the map's depth either.
- `isLong` is a field element in the source, 1 for long and 0 for short, and is used as a condition of `Provable.if`. The model makes it a boolean, so other field values are not modelled. `isOpen` stays a field element, because its only use is the comparison with 1.
- Circuit and proof semantics are not modelled: `@method`, `getAndRequireEquals` preconditions on the on-chain state, and the sender's signature check. The sender is an authenticated input, and the state is passed in explicitly.
- Staleness and concurrency between transactions belong to the chain, which orders them. The model assumes it is called with the current state.
- Token transfers are not modelled. `closePosition` reads the pool but never adds or removes the payout (`src/Perpetual.ts:97`), and the model keeps that as written.
- The web interface (`ui/`), the deployment script (`src/deploy.ts`) and the bundler configuration are left out. They contain I/O and presentation only.
- Perpetual.ClosePosition: settles with the intended payout, selecting one arm only. The contract as written also rejects every close whose PnL exceeds the collateral or whose collateral plus PnL reaches 2^64. `PerpetualAsWritten.ClosePositionAsWritten` models that behaviour, and `CloseAsWrittenAgreesOnlyWithinCollateral` states where the two differ.
- Settlement.Payout: computes the intended selection of `src/Perpetual.ts:92-95`, not its eager evaluation of both arms. `SettlementAsWritten.PayoutAsWritten` models the evaluation as written, and `AsWrittenAgreesOnlyWithinCollateral` states where the two differ.

## Findings

| source | as written | input that shows it | evidently intended | confidence | as-written member | corrected member |
|---|---|---|---|---|---|---|
| src/Perpetual.ts:92-95 | both arms of the payout selection are evaluated, so `collateral.add(pnl)` and `collateral.sub(pnl)` are both range-checked, whichever arm is selected | long, size 1000, collateral 100, entry 50: closing at 40 loses 200 and closing at 60 gains 200; in both cases the subtraction 100 - 200 underflows | only the selected arm counts: payout 0 at 40 and 300 at 60, with losses beyond the collateral floored at zero | medium: depends on o1js `UInt64.sub` failing below zero, which is outside this model; not executed | SettlementAsWritten.AsWrittenRejectsLargeMoves | Settlement.Payout |
| src/Perpetual.ts:53 | `openPosition` stores any `price` as the entry price, zero included, while settlement divides by the entry price (`src/Perpetual.ts:87`) | open with price 0 and any amount and size that pass the leverage check: every later close of that position fails on the division, so the position can never be closed and its slot stays occupied | an open rejects a zero price, so every stored position can be settled | low: the source has no comment about the price, so the intent is inferred from settlement; not executed | PerpetualProperties.ZeroPricePositionNeverCloses | Perpetual.OpenPositionPriced |
