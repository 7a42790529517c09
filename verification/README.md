# Verified models of the wallet's transaction engine

A Dafny 4.11 model of the parts of the repository that decide how money moves: the compose engine of the Trezor crate
(coin selection, weight and fee, change, ordering), the signing conversation with the device, the reference tracker of the
Go/Java bridge, and the codecs around them. `dafny verify dfyconfig.toml` checks everything.

## How it is built

| file | source | contents |
|---|---|---|
| `Prelude.dfy` | | options, ASCII lower case, one fact about multiples |
| `Weight.dfy` | `compose/weight.rs`, `compose/dust.rs` | weights, the doubly rounded fee, dust |
| `CoinSelection.dfy` | `coinselect/mod.rs`, `coinselect/finalize.rs` | coins, `finalize`, the fee inequality behind every selection result |
| `Accumulative.dfy`, `GreedyCompleteness.dfy` | `coinselect/accumulative.rs` | the greedy selector, when it fails, how far it can be wrong, exactly when it is complete |
| `BnbSearch.dfy`, `BranchAndBound.dfy` | `coinselect/bnb.rs` | the depth-first search on mutable state, and the selector around it |
| `CoinSelect.dfy` | `coinselect/mod.rs`, `coinselect/split.rs` | dispatch, send-max |
| `TryConfirmed.dfy`, `SkipCounterexample.dfy` | `compose/tryconfirmed.rs` | progressive confirmations, and when skipping a trial is wrong |
| `StableSort.dfy`, `Permutation.dfy`, `SortTransaction.dfy` | `compose/sorting.rs` | stable sorting, reordering, `sort_transaction` |
| `Compose.dfy`, `ComposeSoundness.dfy`, `ComposeCompleteness.dfy` | `compose/mod.rs` | `compose_tx`, what its results guarantee, what its refusals mean |
| `SortCounterexample.dfy`, `SendMaxCounterexample.dfy` | `compose/mod.rs` | exactly when spending is safe, requests on which it is not |
| `BitRegroup.dfy`, `Base58.dfy` | `compose/sorting.rs` | `convert_bits`, `base58check_decode` |
| `Signing.dfy` | `connected_device.rs`, `tx_verify.rs` | the TxRequest/TxAck loop against an arbitrary device |
| `RefMap.dfy`, `RefTracker.dfy` | `go/Seq.java` | the array map with tombstones, reference counting |
| `Psbt.dfy`, `Chunk.dfy`, `DerivationPath.dfy` | `go/bridge.go`, `protocol/chunk.rs`, `types/path.rs` | codecs |

Code that loops or updates fields is a method or a class with the source's own loops; each such method is proved equal to a
specification function (or to a relation that does not mention the loop), and the theorems are about that function.

Conventions. Satoshi amounts and weights are unbounded naturals. A fee rate is an exact real number, so the fee is an exact
ceiling; the cast to `u64` of a negative product is zero, as in Rust. Throwing and `Err` become result values. Hash functions,
transaction decoding, script derivation, message encoding and the random generator are parameters.

## Findings

Places where the code does not do what its comments or its callers assume. Each has a lemma with a concrete input and a lemma
with the exact condition.

- `try_confirmed` skips a trial whose list is as long as the last one tried. That is right exactly when `other >= 1` or
  `own == 0` (`SkipIsSoundExactly`); with `other == 0` the trial (0, 1) is stricter than its predecessors and can be lost
  (`SkipLosesATrial`). `compose_tx` only passes the defaults (1, 6), so this concerns callers of the public function, not the
  engine.
- `compose_tx` sorts the coins by effective value but hands `try_confirmed` and `split` confirmations in request order, which
  both look up by position. Whatever is paid, at every positive rate, all inputs are spent safely if and only if the order is
  kept (`SafeExactlyInOrder`); under BIP-69 and random order alike a payment spends a coinbase coin with one confirmation
  (`ImmatureCoinbaseIsSpent`), and send-max spends that coin alone and drops the confirmed required one
  (`SendMaxSpendsTheImmature`). For one request positions and indices agree exactly when the order is kept or the request was
  already sorted (`InPlaceExactly`), and send-max takes exactly the coins that stand at mature positions
  (`SendMaxTakesTheMature`).
- Two send-max outputs are each filled with the whole maximum, so the transaction conserves value exactly when there is one;
  `total_spent` leaves out other payments (`SendMaxConservesExactly`; inputs: `TwoMaximaCreateMoney`,
  `TotalLeavesOutThePayment`). Send-max also drops a required coin that is immature coinbase (`SendMaxTakesTheMature`; input:
  `RequiredCoinbaseIsLeftOut`).
- The greedy selector is complete for all amounts and payments of one shape of wallet (script types, rate, output weights) if
  and only if the fee of every choice, with the own fees of the coins left out, covers that of some list the selector tries
  (`GreedyCompleteExactly`); where a coin is required the same holds of the dispatcher, branch-and-bound included
  (`SelectCompleteExactly`). On fewer than 253 coins that are all segwit or all legacy it is complete (`GreedyComplete`), on
  mixed ones it need not be (`MixedCoinsFail`: selector and dispatcher report insufficient funds though two of three coins
  pay). In general it is wrong by at most the fee of the overhead of the mix (`GreedyMissesByOverhead`).

## Model

| member | source | states |
|---|---|---|
| `Weight.ComputeTransactionWeight` | rust/trezor-connect-rs/src/compose/weight.rs:74-112 | the accumulating loops compute base weight plus input weights plus the overhead of input count, marker and empty witnesses |
| `Weight.WeightsAreBytes` | rust/trezor-connect-rs/src/compose/weight.rs:16-36 | every input and output weight is four for each byte outside the witness and one for each byte inside, from the sizes of their parts |
| `Weight.CountsAreBytes` | rust/trezor-connect-rs/src/compose/weight.rs:38-62 | counts weigh as compact sizes, and data outputs as two opcodes and the data |
| `Weight.FeeIsCeiling` | rust/trezor-connect-rs/src/compose/weight.rs:114-126 | vbytes are the fewest that hold the weight and the fee is the least whole number that pays for them, at every rate |
| `Weight.FeeMonotone` | rust/trezor-connect-rs/src/compose/weight.rs:114-126 | the doubly rounded fee never falls when weight grows, for every rate |
| `Weight.FeeSubadditive` | rust/trezor-connect-rs/src/compose/weight.rs:114-126 | the fee of a sum of weights is at most the sum of the fees, for every rate and despite both ceilings |
| `Weight.TimesIsProduct` | rust/trezor-connect-rs/src/compose/weight.rs:123-126 | the rate paid once per vbyte is the product the code computes |
| `Weight.WholeRateFee` | rust/trezor-connect-rs/src/compose/weight.rs:123-126 | at a whole-number rate the fee is exactly rate times vbytes |
| `CoinSelection.Finalize` | rust/trezor-connect-rs/src/compose/coinselect/finalize.rs:37-93 | fails exactly when inputs cannot pay; makes change exactly when it would not be dust; inputs equal payments plus change plus fee; fee covers the reported weight and base fee; without change it stays below the fee with change plus dust |
| `CoinSelection.FeeOfDropped` | rust/trezor-connect-rs/src/compose/weight.rs:74-126 | for every list of coins and every subset left out, the fee of the whole is at most the fee of the rest plus the own fees of those left out plus the fee of the overhead they brought |
| `Accumulative.AddRequired` | rust/trezor-connect-rs/src/compose/coinselect/accumulative.rs:28-39 | phase 1 collects indices, amounts and types of exactly the required coins, in order |
| `Accumulative.SelectGreedily` | rust/trezor-connect-rs/src/compose/coinselect/accumulative.rs:18-140 | the loops with their early returns compute the function `Greedy` |
| `Accumulative.GreedyAccounts` | rust/trezor-connect-rs/src/compose/coinselect/accumulative.rs:28-137 | a success is accounted for: coins of the list, each at most once, all required ones among them, that pay, reported as `finalize` decided |
| `Accumulative.GreedyReturnsExactly` | rust/trezor-connect-rs/src/compose/coinselect/accumulative.rs:41-140 | which attempt is returned: the required coins alone if any and they pay; else those with the fewest worthwhile coins from the front that pay; else all with a detrimental last coin; else failure |
| `Accumulative.PartsInOrder` | rust/trezor-connect-rs/src/compose/coinselect/accumulative.rs:28-71 | required and optional coins are tried in the order of the list |
| `Accumulative.WorthwhileInOrder` | rust/trezor-connect-rs/src/compose/coinselect/accumulative.rs:67-76 | the worthwhile coins are those worth at least their own fee, in the order of the list |
| `Accumulative.GreedyFailsExactly` | rust/trezor-connect-rs/src/compose/coinselect/accumulative.rs:41-140 | insufficient funds is returned if and only if neither the required coins, nor they with any prefix of the worthwhile coins, nor all with a detrimental last coin can pay |
| `Accumulative.GreedyMissesByOverhead` | rust/trezor-connect-rs/src/compose/coinselect/accumulative.rs:18-140 | on failure every choice of worthwhile coins misses its own price plus the fee of the overhead of the coins left out, on every list at a positive rate and on every list with a required or worthwhile coin at any rate |
| `Accumulative.GreedyComplete` | rust/trezor-connect-rs/src/compose/coinselect/accumulative.rs:18-140 | on fewer than 253 coins that are all segwit or all legacy, failure means no choice of the required coins and worthwhile ones can pay |
| `GreedyCompleteness.GreedyCompleteExactly` | rust/trezor-connect-rs/src/compose/coinselect/accumulative.rs:18-140 | for every list of script types, rate and output weights: failure means that no choice pays, for all amounts, payments and base fees, if and only if each choice of worthwhile coins lies within an attempt of the selector whose fee is at most that of the choice plus the own fees of the attempt's other coins |
| `GreedyCompleteness.SelectCompleteExactly` | rust/trezor-connect-rs/src/compose/coinselect/mod.rs:98-106 | where a coin is required, the same condition is exact for the dispatcher, which tries branch-and-bound first |
| `GreedyCompleteness.CoversSuffices` | rust/trezor-connect-rs/src/compose/coinselect/accumulative.rs:41-140 | the condition makes every failure a proof that nothing pays |
| `GreedyCompleteness.MixedCoinsFail` | rust/trezor-connect-rs/src/compose/coinselect/mod.rs:98-106 | three mixed coins of which two pay exactly while both the greedy selector and the dispatcher report insufficient funds |
| `BnbSearch.SearchState.constructor` | rust/trezor-connect-rs/src/compose/coinselect/bnb.rs:127-131 | nothing selected, sum and tries zero, no result |
| `BnbSearch.SearchState.Search` | rust/trezor-connect-rs/src/compose/coinselect/bnb.rs:139-206 | the search on mutable state computes `SearchFrom`, and a `false` return restores the selection and the running sum |
| `BnbSearch.SearchIsExact` | rust/trezor-connect-rs/src/compose/coinselect/bnb.rs:139-218 | both prunings and the limit included: what is found is the first solution in include-before-exclude order, a `false` return means no solution extends the prefix, and without a find it stops only at the limit |
| `BnbSearch.SearchFindsExactly` | rust/trezor-connect-rs/src/compose/coinselect/bnb.rs:127-218 | the search returns a mask if and only if it is the first solution and a search without limit visits at most a million places to reach it |
| `BnbSearch.TrimToSolution` | rust/trezor-connect-rs/src/compose/coinselect/bnb.rs:155-163 | every in-window choice cut where it reaches the target is a solution, so looking only at solutions loses no window |
| `BranchAndBound.SuffixSums` | rust/trezor-connect-rs/src/compose/coinselect/bnb.rs:133-137 | entry `i` is the sum of the effective values from `i` on |
| `BranchAndBound.CollectOptional` | rust/trezor-connect-rs/src/compose/coinselect/bnb.rs:50-74 | exactly the coins worth more than their fee, stably sorted largest first |
| `BranchAndBound.LargestFirst` | rust/trezor-connect-rs/src/compose/coinselect/bnb.rs:73-121 | the search list falls in amount less fee, and coins of equal value stand as in the list given |
| `BranchAndBound.SpaceExactly` | rust/trezor-connect-rs/src/compose/coinselect/bnb.rs:50-121 | the search list holds exactly the coins worth more than their fee by no more than outputs, base fee, the fee without inputs, the fee of change and 546 |
| `BranchAndBound.RunSearch` | rust/trezor-connect-rs/src/compose/coinselect/bnb.rs:127-218 | the search from the root returns what `SearchFrom` finds |
| `BranchAndBound.CollectSelected` | rust/trezor-connect-rs/src/compose/coinselect/bnb.rs:220-231 | indices, amounts and types of exactly the masked coins |
| `BranchAndBound.SelectByBranchAndBound` | rust/trezor-connect-rs/src/compose/coinselect/bnb.rs:21-257 | the whole selector computes the function `ExactMatch` |
| `BranchAndBound.ExactMatchExactly` | rust/trezor-connect-rs/src/compose/coinselect/bnb.rs:30-256 | with no required coin, some positive coin and something to pay, a selection is returned if and only if there is a first in-window match within the limit and its coins pay, and it selects exactly those; with a required coin or no positive one, none |
| `BranchAndBound.NoMatchMeans` | rust/trezor-connect-rs/src/compose/coinselect/bnb.rs:30-256 | below the limit, none returned means that no choice of positive coins sums into the window or that the first match cannot pay |
| `BranchAndBound.AtMostCounts` | rust/trezor-connect-rs/src/compose/coinselect/bnb.rs:118-121 | the upper-bound filter drops exactly the coins whose own value overshoots |
| `BranchAndBound.FoundIsInWindow` | rust/trezor-connect-rs/src/compose/coinselect/bnb.rs:50-218 | the coins found are coins of the list, each at most once, and their amounts less their fees lie between the price without inputs and that plus the fee of one change output and the dust limit |
| `BranchAndBound.SearchIsComplete` | rust/trezor-connect-rs/src/compose/coinselect/bnb.rs:50-218 | nothing found before the limit means no choice of coins with positive effective value, filtered ones included, sums into the window |
| `BranchAndBound.ExactMatchAccounts` | rust/trezor-connect-rs/src/compose/coinselect/bnb.rs:220-256 | a selection returned is accounted for like the greedy one |
| `BranchAndBound.OvershootFinalizes` | rust/trezor-connect-rs/src/compose/coinselect/bnb.rs:76-116 | coins that exceed the target by the fee of the overhead the search ignores always finalise |
| `BranchAndBound.NoChangeAtWholeRates` | rust/trezor-connect-rs/src/compose/coinselect/bnb.rs:113-256 | at whole-number rates, with native or nested segwit coins and outputs of weight divisible by four, the selection never carries change |
| `CoinSelect.SelectAll` | rust/trezor-connect-rs/src/compose/coinselect/split.rs:19-82 | the loop and its checks compute the function `Split` |
| `CoinSelect.SplitExactly` | rust/trezor-connect-rs/src/compose/coinselect/split.rs:46-81 | refused if and only if no coin is mature or the mature ones bring less than payments, fee, base fee and dust; else amounts equal payments plus maximum plus fee |
| `CoinSelect.MatureInOrder` | rust/trezor-connect-rs/src/compose/coinselect/split.rs:33-44 | the coins at mature positions, in order |
| `CoinSelect.MatureExactly` | rust/trezor-connect-rs/src/compose/coinselect/split.rs:33-44 | a coin is taken if and only if it stands at a position that is not immature coinbase |
| `CoinSelect.SelectCoins` | rust/trezor-connect-rs/src/compose/coinselect/mod.rs:75-107 | send-max, else the exact match, else the greedy selection |
| `CoinSelect.SelectExactly` | rust/trezor-connect-rs/src/compose/coinselect/mod.rs:98-106 | a fixed payment without required coins gets the first match if it pays, and in every other case the greedy selection |
| `CoinSelect.SelectAccounts` | rust/trezor-connect-rs/src/compose/coinselect/mod.rs:98-106 | whichever selector answers a fixed payment, its answer is accounted for |
| `TryConfirmed.GenerateTrials` | rust/trezor-connect-rs/src/compose/tryconfirmed.rs:32-62 | the loops produce `Trials` |
| `TryConfirmed.TrialsExactly` | rust/trezor-connect-rs/src/compose/tryconfirmed.rs:32-62 | the number of trials and each one: (own, other) down to (1, other), (1, other - 1) down to (1, 1), (0, 1), (0, 0) |
| `TryConfirmed.TrialsStepByOne` | rust/trezor-connect-rs/src/compose/tryconfirmed.rs:32-49 | with both thresholds positive, consecutive trials before the last two lower exactly one threshold by one |
| `TryConfirmed.FilteredExactly` | rust/trezor-connect-rs/src/compose/tryconfirmed.rs:90-117 | a trial sees, in order, exactly the coins that are required or, at their position, not coinbase below 100 confirmations and confirmed as the trial asks |
| `TryConfirmed.IndexedLookup` | rust/trezor-connect-rs/src/compose/tryconfirmed.rs:130-140 | after filtering the confirmations are looked up by the coins' own index |
| `TryConfirmed.TrialsRelaxExactly` | rust/trezor-connect-rs/src/compose/tryconfirmed.rs:26-62 | every trial admits what its predecessors did if and only if `other >= 1` or `own == 0` |
| `TryConfirmed.FilteredNests` | rust/trezor-connect-rs/src/compose/tryconfirmed.rs:91-117 | a relaxed filter gives a list at least as long, and equal length means equal lists |
| `TryConfirmed.SelectConfirmed` | rust/trezor-connect-rs/src/compose/tryconfirmed.rs:72-156 | the loop over trials with its two skips computes `TryFrom` |
| `TryConfirmed.TryConfirmedIsTryEvery` | rust/trezor-connect-rs/src/compose/tryconfirmed.rs:119-153 | under that condition the result is that of running coin selection on every trial and returning the first success |
| `SkipCounterexample.SkipLosesATrial` | rust/trezor-connect-rs/src/compose/tryconfirmed.rs:123-128 | for `other == 0` and every `own >= 1`, coins on which the skip changes the result |
| `SkipCounterexample.SkipIsSoundExactly` | rust/trezor-connect-rs/src/compose/tryconfirmed.rs:32-156 | skipping by length agrees with running every trial on all coins, payments and histories if and only if `other >= 1` or `own == 0` |
| `TryConfirmed.SelectedPassed` | rust/trezor-connect-rs/src/compose/tryconfirmed.rs:90-153 | the result is that of one trial, the selection is accounted for, and every coin passed that trial's filter at its position |
| `TryConfirmed.FirstSuccess` | rust/trezor-connect-rs/src/compose/tryconfirmed.rs:119-153 | running every trial returns what the first, strictest success selects |
| `TryConfirmed.ConfirmationSafety` | rust/trezor-connect-rs/src/compose/tryconfirmed.rs:90-153 | when position equals index, each coin a successful trial selects without its being required meets the minimum of that trial, and none is immature coinbase |
| `StableSort.SortSorts` | rust/trezor-connect-rs/src/compose/mod.rs:245-254 | sorting by a total preorder puts the list in order |
| `StableSort.SortPermutes` | rust/trezor-connect-rs/src/compose/mod.rs:245-254 | sorting loses and adds nothing |
| `StableSort.SortIsStable` | rust/trezor-connect-rs/src/compose/coinselect/bnb.rs:73-74 | elements the order does not separate keep their order |
| `SortTransaction.Arrange` | rust/trezor-connect-rs/src/compose/sorting.rs:246-290 | nothing lost or added; BIP-69 orders inputs by transaction id and output number and outputs by amount and script, to the first difference; random placement of change keeps the payments in order; the permutation names each output's origin |
| `SortTransaction.PlaceChange` | rust/trezor-connect-rs/src/compose/sorting.rs:268-281 | change inserted at arbitrary positions leaves the other outputs in order |
| `SortTransaction.OrdersAreTotal` | rust/trezor-connect-rs/src/compose/sorting.rs:252-261 | the BIP-69 comparisons are total preorders |
| `SortTransaction.LexExactly` | rust/trezor-connect-rs/src/compose/sorting.rs:252-261 | byte strings compare by the first difference, a prefix first |
| `Compose.Assemble` | rust/trezor-connect-rs/src/compose/mod.rs:365-473 | the result describes the selection: inputs and outputs reordered, BIP-69 on both lists, payments in the order of the request under random placement |
| `Compose.ComposeTx` | rust/trezor-connect-rs/src/compose/mod.rs:198-596 | each error exactly in its case; non-final amounts; every final output pays what and whom the request's output at its permutation index names, a maximum output the maximum, and the one output beyond is the change |
| `Compose.WeightByAddress` | rust/trezor-connect-rs/src/compose/mod.rs:183-195 | outputs weigh 124, 172, 128 or 136 by how the address begins, in either case |
| `ComposeSoundness.FixedPaymentIsSound` | rust/trezor-connect-rs/src/compose/mod.rs:329-474 | every final fixed payment: distinct inputs with every field of the request's, every required one, each payee paid as asked, inputs equal payments plus change plus fee, the size that of these inputs and outputs, fee at least the fee of that size plus base fee, one change output of at least dust or none and then the fee below fee with change plus dust |
| `ComposeSoundness.ComposeSoundly` | rust/trezor-connect-rs/src/compose/mod.rs:198-596 | end to end: a final result exists only for a complete request at a positive rate; fixed payments are sound; send-max has its full account and conserves value if and only if one output asks for the maximum |
| `ComposeSoundness.SendMaxConservesExactly` | rust/trezor-connect-rs/src/compose/mod.rs:475-594 | value is conserved if and only if exactly one output asks for the maximum; the reported total is right if and only if there is also no other payment |
| `ComposeSoundness.SendMaxEmpties` | rust/trezor-connect-rs/src/compose/mod.rs:475-594 | send-max: each maximum output gets inputs less payments less fee, at least 546; the total is that plus the fee; size and fee are those of these inputs and outputs |
| `ComposeSoundness.SendMaxRefusedExactly` | rust/trezor-connect-rs/src/compose/mod.rs:299-330 | refused if and only if no coin stands at a mature position or those that do bring less than payments, fee, base fee and 546 |
| `ComposeSoundness.PricedAsChange` | rust/trezor-connect-rs/src/compose/mod.rs:257-293 | an output without an address is priced as one to an address of the change type |
| `ComposeSoundness.SendMaxTakesTheMature` | rust/trezor-connect-rs/src/compose/mod.rs:299-312 | on every request an input is spent if and only if its coin stands, after the sort, where the request lists an input that is not immature coinbase; with coins in place, if and only if it is not immature itself |
| `ComposeSoundness.BestCoinsFirst` | rust/trezor-connect-rs/src/compose/mod.rs:242-255 | the selectors see a reordering of the coins by falling effective value, ties by index |
| `ComposeSoundness.InPlaceExactly` | rust/trezor-connect-rs/src/compose/mod.rs:242-255 | every coin stands at the position its index names if and only if the order was kept or the request was already sorted |
| `ComposeSoundness.DecidedExactly` | rust/trezor-connect-rs/src/compose/mod.rs:314-326 | a fixed payment selects what the first of the trials (1, 6) down to (0, 0) that succeeds selects, and is refused if and only if all fail |
| `ComposeSoundness.ConfirmedWhenInPlace` | rust/trezor-connect-rs/src/compose/mod.rs:296-326 | with coins in place, every input a fixed payment spends without its being required has the confirmations of the strictest trial that succeeds and is not immature coinbase |
| `SortCounterexample.SafeExactlyInOrder` | rust/trezor-connect-rs/src/compose/mod.rs:242-326 | for all outputs, positive rates, base fees and change types: every list of inputs is spent safely, by payments and by send-max, if and only if the strategy keeps the order |
| `SortCounterexample.PaymentIsLured` | rust/trezor-connect-rs/src/compose/mod.rs:242-326 | under a sorting strategy a small required coin and a larger young coinbase coin are both spent whenever only both pay |
| `SortCounterexample.ImmatureCoinbaseIsSpent` | rust/trezor-connect-rs/src/compose/mod.rs:242-255 | a request, under either sorting strategy, that spends a coinbase input with one confirmation |
| `SortCounterexample.SendMaxSpendsTheImmature` | rust/trezor-connect-rs/src/compose/mod.rs:242-312 | a request, under either sorting strategy, on which send-max spends the coinbase input with one confirmation alone and drops the confirmed required one |
| `SendMaxCounterexample.TwoMaximaCreateMoney` | rust/trezor-connect-rs/src/compose/mod.rs:519-545 | two maxima from an input of 5000 pay out 9718 |
| `SendMaxCounterexample.TotalLeavesOutThePayment` | rust/trezor-connect-rs/src/compose/mod.rs:475-594 | a payment of 1000 beside the maximum: 5000 leave the wallet and 4000 are reported |
| `SendMaxCounterexample.RequiredCoinbaseIsLeftOut` | rust/trezor-connect-rs/src/compose/coinselect/split.rs:33-44 | a required immature coinbase input is left out although the order was kept |
| `ComposeCompleteness.RefusedMeansTooPoor` | rust/trezor-connect-rs/src/compose/mod.rs:314-340 | a fixed payment refused at a positive rate: no choice of the required and worthwhile coins the last trial admits pays, if those are fewer than 253 and all segwit or all legacy, or meet the exact condition of the greedy selector |
| `ComposeCompleteness.RefusedExactly` | rust/trezor-connect-rs/src/compose/mod.rs:314-340 | if moreover every coin it admits is required or worth its own fee, a payment is refused if and only if there is no way to pay it |
| `ComposeSoundness.NoChangeInCompose` | rust/trezor-connect-rs/src/compose/mod.rs:257-293 | every output the engine hands to the selectors has aligned weight, so the no-change theorem applies |
| `ComposeSoundness.DustIsDefault` | rust/trezor-connect-rs/src/compose/dust.rs:22-38 | the dust amount is 546 for every script type |
| `BitRegroup.ConvertBits` | rust/trezor-connect-rs/src/compose/sorting.rs:154-181 | the result is the same bits regrouped, or a failure, exactly as the bit-string relation says, although the accumulator keeps 32 bits |
| `BitRegroup.AccumulatorKeeps` | rust/trezor-connect-rs/src/compose/sorting.rs:164-165 | after shifting in a value the low bits are the old ones followed by the value's, whatever fell off the top |
| `BitRegroup.RoundTrip` | rust/trezor-connect-rs/src/compose/sorting.rs:154-181 | for every byte string, 8 to 5 with padding succeeds and 5 to 8 without padding gives it back |
| `Base58.MultiplyAdd` | rust/trezor-connect-rs/src/compose/sorting.rs:205-211 | the in-place carry loop computes `MulAdd` |
| `Base58.MulAddNumber` | rust/trezor-connect-rs/src/compose/sorting.rs:205-211 | bytes stay bytes, the carry stays at most 57, and with it as leading digit the number is 58 times the old one plus the digit |
| `Base58.Absorb` | rust/trezor-connect-rs/src/compose/sorting.rs:203-215 | one character: 58 times the number plus the digit, with no leading zero byte |
| `Base58.Decode` | rust/trezor-connect-rs/src/compose/sorting.rs:187-222 | succeeds exactly on strings over the alphabet; the bytes denote the same number and have a leading zero for each leading '1' |
| `Base58.DecodeChecked` | rust/trezor-connect-rs/src/compose/sorting.rs:184-242 | returns the payload whose bytes and checksum the string decodes to, and fails exactly when there is none |
| `Base58.DecodingIsInjective` | rust/trezor-connect-rs/src/compose/sorting.rs:184-222 | no two strings decode to the same bytes |
| `RefMap.Ref.Inc` | go/Seq.java:143-149 | counts one more, or refuses at the largest int |
| `RefMap.Map.constructor` | go/Seq.java:300-306 | starts as the empty map |
| `RefMap.Map.Get` | go/Seq.java:308-314 | looks up the plain map |
| `RefMap.Map.Remove` | go/Seq.java:316-324 | removes the key from the plain map |
| `RefMap.Map.Put` | go/Seq.java:326-355 | adds to the plain map; refuses null or a second object under a live key, and then changes nothing |
| `RefMap.Map.InsertAt` | go/Seq.java:345-354 | shifting and filling the gap adds one entry and keeps the keys increasing |
| `RefMap.Map.Grow` | go/Seq.java:357-390 | compaction, in place or not, keeps the map; a slot is free afterwards; `next` equals `live`, so "bad state" is unreachable |
| `RefMap.Map.Compact` | go/Seq.java:370-377 | the squeezing loop leaves exactly the live keys and objects in order, even when reading and writing the same arrays |
| `RefMap.SqueezeKeeps` | go/Seq.java:370-377 | keys and objects without the nulls stand for the same map |
| `RefMap.CountIsSize` | go/Seq.java:301-302 | the number of non-null slots is the size of the map |
| `RefMap.RunAll` | go/Seq.java:300-399 | over every sequence of gets, puts (of null too) and removes the array map gives the replies of the plain map and ends as the plain map |
| `RefTracker.Tracker.constructor` | go/Seq.java:154-171 | starts in the initial state |
| `RefTracker.Tracker.IncObject` | go/Seq.java:175-198 | one step of the state machine, with its reply |
| `RefTracker.Tracker.IncNumber` | go/Seq.java:200-206 | one step of the state machine, with its reply |
| `RefTracker.Tracker.DecNumber` | go/Seq.java:212-232 | one step of the state machine, with its reply |
| `RefTracker.Tracker.Get` | go/Seq.java:235-247 | the reference pinned under the number, the null reference for 41, otherwise an exception |
| `RefTracker.StepKeepsInv` | go/Seq.java:154-232 | every step keeps object-to-number and number-to-object inverse to each other, counts positive, numbers below the next one |
| `RefTracker.PinnedExactly` | go/Seq.java:173-232 | on every run a number is pinned if and only if its increments exceed its decrements, and its count is the difference |
| `RefTracker.DroppedNumberStaysDead` | go/Seq.java:162-232 | a number given out and no longer pinned is not pinned after any run, and no later increment of any object, its last holder included, replies with it |
| `RefTracker.NumbersAreNeverReused` | go/Seq.java:162-190 | if a number is handed out twice on a run, it is for the same object, which was pinned under it in every state between; it never equals the null number |
| `RefTracker.RepliesExactly` | go/Seq.java:200-247 | on every run `incRefnum`, `dec` and `get` succeed if and only if the number's increments exceed its decrements, but for the numbers up to zero, the null number and the largest count |
| `RefTracker.NumberNamesObject` | go/Seq.java:175-247 | while a number is pinned, looking it up gives the object it was given out for, and another increment of that object gives the same number |
| `RefTracker.OthersKeepTheirNumber` | go/Seq.java:175-182 | null has the number 41 and a proxy its own; neither is counted |
| `RefTracker.Execute` | go/Seq.java:154-248 | the class, run on any list of operations, gives the replies of the state machine and stands where it stands |
| `Chunk.CreateChunks` | rust/trezor-connect-rs/src/protocol/chunk.rs:22-56 | the loop produces `Chunks` |
| `Chunk.ChunksSpell` | rust/trezor-connect-rs/src/protocol/chunk.rs:22-56 | every chunk but the first begins with the header, and the first with what follows the headers is the data and then zeros |
| `Chunk.ReassembleChunks` | rust/trezor-connect-rs/src/protocol/chunk.rs:70-100 | the loop produces `Reassembled`, with the error on no chunks |
| `Chunk.ReassembledExactly` | rust/trezor-connect-rs/src/protocol/chunk.rs:70-100 | malformed if and only if there is no chunk; else what stands behind the headers, cut to the length asked for |
| `Chunk.ChunkRoundTrip` | rust/trezor-connect-rs/src/protocol/chunk.rs:22-100 | reassembling the created chunks gives back the data after the message header |
| `Chunk.ChunkSizes` | rust/trezor-connect-rs/src/protocol/chunk.rs:22-133 | every chunk has the chunk size and their number is `chunks_needed` |
| `Psbt.NormalizePsbtKeys` | go/bridge.go:579-639 | terminates, reads in bounds and computes `Normalized` on every byte string |
| `Psbt.LengthRoundTrip` | go/bridge.go:585-606 | a length of one, two or four bytes is read as the little-endian number it spells, in shortest form or not |
| `Psbt.LengthFailsExactly` | go/bridge.go:585-606 | no length is read if and only if it is past the end, of eight bytes, or cut off |
| `Psbt.EntryOfParts` | go/bridge.go:608-623 | a nonempty key and a value, each behind its length, are an entry whose type is the first byte of the key |
| `Psbt.StandardExactly` | go/bridge.go:607-628 | entries of type 0xfc are dropped and all others kept, in order |
| `Psbt.NormalizesExactly` | go/bridge.go:579-639 | succeeds if and only if the data is magic, entries and separator; the result is magic, the entries that are not proprietary in order, separator and rest |
| `Psbt.NormalizeIdempotent` | go/bridge.go:579-639 | normalising again changes nothing |
| `DerivationPath.ParsePath` | rust/trezor-connect-rs/src/types/path.rs:18-59 | the loop with its early error computes `Parsed` |
| `DerivationPath.ParsedExactly` | rust/trezor-connect-rs/src/types/path.rs:18-59 | which strings are accepted and as which path: "m", or after an optional "m/" pieces that are blank or spell a number |
| `DerivationPath.ComponentExactly` | rust/trezor-connect-rs/src/types/path.rs:40-56 | a component is accepted if and only if it is an optional plus, digits below 2^32 and an optional mark, which sets the highest bit |
| `DerivationPath.TrimExactly` | rust/trezor-connect-rs/src/types/path.rs:18-38 | trimming removes white space at both ends, and all of it |
| `DerivationPath.PathRoundTrip` | rust/trezor-connect-rs/src/types/path.rs:18-89 | parsing a printed path gives it back for every list of 32-bit indices |
| `DerivationPath.SerializedShape` | rust/trezor-connect-rs/src/types/path.rs:61-89 | a printed path is "m" or begins with "m/"; each component is the shortest decimal with an apostrophe exactly when hardened |
| `DerivationPath.CanonicalSpelling` | rust/trezor-connect-rs/src/types/path.rs:18-89 | whatever parses, in any spelling, prints to a path that parses to the same indices |
| `DerivationPath.SplitJoin` | rust/trezor-connect-rs/src/types/path.rs:35-87 | splitting on '/' undoes joining |
| `Signing.MissingPrevTxs` | rust/trezor-connect-rs/src/connected_device.rs:1632-1652 | exactly the lower-cased hashes of streamed inputs without a previous transaction, each once |
| `Signing.Validate` | rust/trezor-connect-rs/src/connected_device.rs:1594-1676 | accepts if and only if every check holds |
| `Signing.SignTransaction` | rust/trezor-connect-rs/src/connected_device.rs:596-991 | the loop against any replies computes `SignedBy` |
| `Signing.HexExactly` | rust/trezor-connect-rs/src/connected_device.rs:647 | two lower-case hexadecimal digits for each byte, the high half first |
| `Signing.HexRoundTrip` | rust/trezor-connect-rs/src/connected_device.rs:647 | the text decodes to the bytes |
| `Signing.AnswersExactly` | rust/trezor-connect-rs/src/connected_device.rs:669-954 | a request is answered, and with which message, if and only if the details, the first transaction with the hash, an index in bounds and decodable extra data are there |
| `Signing.SignedExactly` | rust/trezor-connect-rs/src/connected_device.rs:605-991 | signing succeeds if and only if the replies up to one that finishes can all be answered and encoded, name inputs there are, and carry a transaction that passes the check |
| `Signing.SameHashExactly` | rust/trezor-connect-rs/src/connected_device.rs:1679-1694 | hashes match if and only if they differ in the case of ASCII letters at most |
| `Signing.VerifySignedTx` | rust/trezor-connect-rs/src/tx_verify.rs:23-77 | returns the decoded transaction if and only if counts, amounts and derivable scripts match |
| `Signing.SignedIsWhatWasAsked` | rust/trezor-connect-rs/src/connected_device.rs:605-991 | against every device: one slot per input holding the last signature sent for it in hexadecimal, the bytes are all parts in order, and a returned id means they decode to a transaction with the requested counts, amounts and scripts |
| `Signing.EveryAnswerIsRight` | rust/trezor-connect-rs/src/connected_device.rs:608-954 | in every conversation the k-th message answers the k-th reply: the requested input, output, original, previous transaction, extra data or payment request |
| `Signing.ExtraChunksJoin` | rust/trezor-connect-rs/src/connected_device.rs:885-892 | a piece of extra data is the bytes from its offset, as many as asked or left; adjacent pieces join and the whole range is the data |
| `Signing.StreamedHashesAreFound` | rust/trezor-connect-rs/src/connected_device.rs:1679-1694 | after validation no request, of any device, that names the previous hash of a streamed input ends with "not found" |

## Left out

- u64 and usize overflow of sums: amounts and weights are unbounded naturals; the money supply is far below the limit.
- IEEE-754 rounding of fee rates and scores: the model uses exact real numbers, so it does not show the extra satoshi of a rate such as 1.1.
- BIP-69 order against the real change script: change has an empty address when it is sorted, so order is claimed over the keys the sort sees.
- Address decoding in `address_to_script_pubkey`: only the two decoders it calls, `convert_bits` and `base58check_decode`, are modelled; the bech32 checksum is stripped, not checked, in the source.
- Compose.ScriptTypeFromAddress: lower-cases ASCII letters only; no other character lower-cases to a letter of the prefixes it tests.
- Signing.Validate: address parsing and previous-transaction hashing are two booleans given to it; error texts are not modelled.
- Signing.MissingPrevTxs: hashes are lower-cased as ASCII, which is all a hash that a device can name contains.
- Signing.SignTransaction: starts at the first reply; deriving the expected scripts and unlocking paths happen before and are parameters.
- RefMap.Map.Grow: array lengths are unbounded, so `roundPow2` cannot overflow as it would past 2^30 live entries.
- Psbt.NormalizePsbtKeys: lengths do not overflow `int`, as on 64-bit platforms.
- Accumulative.GreedyComplete: for rates above zero, the only ones `compose_tx` lets through.
- GreedyCompleteness.GreedyCompleteExactly: for payments with at least one output, as `compose_tx` demands.
- GreedyCompleteness.SelectCompleteExactly: without a required coin branch-and-bound answers first, and what it misses depends on its limit of tries; the condition is then proved sufficient (`RefusedMeansTooPoor`), not necessary.
- BitRegroup.ConvertBits: group widths whose bits do not fit the 32-bit accumulator together, or targets wider than a byte; the callers use 5 and 8.
- The text of the error for a signature index out of bounds: with no inputs it computes `signatures.len() - 1`, which underflows (connected_device.rs:652); the model returns the error.
- The Java monitor on `RefTracker`, and Go references held by proxies: every call is one atomic step.
- The THP handshake, pairing, Bluetooth reassembly, credential store, session handling, protobuf encoding, SHA-256 and secp256k1.
- The string API over the compose engine, script-type inference from paths, and the Swift, Kotlin, Dart and desktop shells: plumbing and user interface.
