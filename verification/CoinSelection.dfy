/** What every coin selector shares: coins, outputs, the final change-or-fee decision (finalize.rs) and the
    fee inequality that relates the fee of a transaction to the fees of its inputs taken one by one. */
module CoinSelection {
  import opened Weight

  /** `CoinSelectInput`. */
  datatype Coin = Coin(index: nat, amount: nat, scriptType: ScriptType, required: bool, weight: nat)

  /** `CoinSelectOutput`. */
  datatype Output = Output(amount: nat, weight: nat, isSendMax: bool)

  /** The arguments handed unchanged from selector to selector. */
  datatype Spending = Spending(outputs: seq<Output>, feeRate: real, baseFee: nat, changeType: ScriptType)

  /** `CoinSelectResult`. */
  datatype Selection =
    | Success(selected: seq<nat>, fee: nat, changeAmount: nat, hasChange: bool, weight: nat)
    | SendMax(selected: seq<nat>, maxAmount: nat, fee: nat, weight: nat)
    | InsufficientFunds

  datatype FinalizeResult =
    | Finalized(fee: nat, changeAmount: nat, hasChange: bool, weight: nat)
    | CannotPay

  function Amounts(coins: seq<Coin>): nat {
    if coins == [] then 0 else Amounts(coins[..|coins| - 1]) + coins[|coins| - 1].amount
  }

  function Types(coins: seq<Coin>): seq<ScriptType> {
    seq(|coins|, i requires 0 <= i < |coins| => coins[i].scriptType)
  }

  function Indices(coins: seq<Coin>): seq<nat> {
    seq(|coins|, i requires 0 <= i < |coins| => coins[i].index)
  }

  function OutputSum(outputs: seq<Output>): nat {
    if outputs == [] then 0 else OutputSum(outputs[..|outputs| - 1]) + outputs[|outputs| - 1].amount
  }

  function OutputWeights(outputs: seq<Output>): seq<nat> {
    seq(|outputs|, i requires 0 <= i < |outputs| => outputs[i].weight)
  }

  /** What spending this coin costs when its fee is rounded on its own. */
  function InputFee(rate: real, coin: Coin): nat {
    CalculateFee(rate, InputWeight(coin.scriptType))
  }

  function InputFees(rate: real, coins: seq<Coin>): nat {
    if coins == [] then 0 else InputFees(rate, coins[..|coins| - 1]) + InputFee(rate, coins[|coins| - 1])
  }

  /** What inputs of these types must bring in: the payments, the fee of the whole transaction without
      a change output, and the base fee. */
  function Price(types: seq<ScriptType>, s: Spending): nat {
    OutputSum(s.outputs) + CalculateFee(s.feeRate, TransactionWeight(types, OutputWeights(s.outputs))) + s.baseFee
  }

  predicate Pays(coins: seq<Coin>, s: Spending) {
    Amounts(coins) >= Price(Types(coins), s)
  }

  function WeightWithChange(types: seq<ScriptType>, s: Spending): nat {
    TransactionWeight(types, OutputWeights(s.outputs) + [OutputWeight(s.changeType)])
  }

  function FeeWithChange(types: seq<ScriptType>, s: Spending): nat {
    CalculateFee(s.feeRate, WeightWithChange(types, s)) + s.baseFee
  }

  /** `finalize`: it fails exactly when the inputs cannot pay, makes change exactly when the change would not
      be dust, and in either case gives away nothing: inputs == payments + change + fee. */
  function Finalize(inputSum: nat, types: seq<ScriptType>, s: Spending): (r: FinalizeResult)
    ensures r.Finalized? <==> inputSum >= Price(types, s)
    ensures r.Finalized? ==>
              && inputSum == OutputSum(s.outputs) + r.changeAmount + r.fee
              && r.fee >= CalculateFee(s.feeRate, r.weight) + s.baseFee
              && (r.hasChange
                  <==> inputSum >= OutputSum(s.outputs) + FeeWithChange(types, s) + DustAmount(s.changeType))
    ensures r.Finalized? && r.hasChange ==>
              && r.changeAmount >= DustAmount(s.changeType)
              && r.fee == FeeWithChange(types, s)
              && r.weight == WeightWithChange(types, s)
    ensures r.Finalized? && !r.hasChange ==>
              && r.changeAmount == 0
              && r.fee < FeeWithChange(types, s) + DustAmount(s.changeType)
              && r.weight == TransactionWeight(types, OutputWeights(s.outputs))
  {
    ChangeAddsWeight(types, s);
    var outputSum := OutputSum(s.outputs);
    var weightNoChange := TransactionWeight(types, OutputWeights(s.outputs));
    var feeNoChange := CalculateFee(s.feeRate, weightNoChange) + s.baseFee;
    if inputSum < outputSum + feeNoChange then CannotPay
    else
      var weightWithChange := WeightWithChange(types, s);
      var feeWithChange := FeeWithChange(types, s);
      if inputSum < outputSum + feeWithChange then
        Finalized(inputSum - outputSum, 0, false, weightNoChange)
      else
        var changeAmount := inputSum - outputSum - feeWithChange;
        if changeAmount >= DustAmount(s.changeType)
        then Finalized(feeWithChange, changeAmount, true, weightWithChange)
        else Finalized(inputSum - outputSum, 0, false, weightNoChange)
  }

  /** How a selector reports a finalised choice of coins. */
  function Report(coins: seq<Coin>, f: FinalizeResult): Selection
    requires f.Finalized?
  {
    Success(Indices(coins), f.fee, f.changeAmount, f.hasChange, f.weight)
  }

  lemma ChangeAddsWeight(types: seq<ScriptType>, s: Spending)
    ensures TransactionWeight(types, OutputWeights(s.outputs)) + OutputWeight(s.changeType)
            <= WeightWithChange(types, s)
    ensures Price(types, s) <= OutputSum(s.outputs) + FeeWithChange(types, s)
  {
    var ws, w := OutputWeights(s.outputs), OutputWeight(s.changeType);
    assert (ws + [w])[..|ws|] == ws;
    FeeMonotone(s.feeRate, TransactionWeight(types, ws), WeightWithChange(types, s));
  }

  // ----- lists of coins -----

  lemma AppendTotals(coins: seq<Coin>, c: Coin)
    ensures Amounts(coins + [c]) == Amounts(coins) + c.amount
    ensures Types(coins + [c]) == Types(coins) + [c.scriptType]
    ensures Indices(coins + [c]) == Indices(coins) + [c.index]
  {
    assert (coins + [c])[..|coins|] == coins;
  }

  lemma Append(coins: seq<Coin>, c: Coin)
    ensures Amounts(coins + [c]) == Amounts(coins) + c.amount
    ensures forall rate :: InputFees(rate, coins + [c]) == InputFees(rate, coins) + InputFee(rate, c)
    ensures Types(coins + [c]) == Types(coins) + [c.scriptType]
    ensures Indices(coins + [c]) == Indices(coins) + [c.index]
    ensures InputWeights(Types(coins + [c])) == InputWeights(Types(coins)) + InputWeight(c.scriptType)
    ensures SegwitCount(Types(coins + [c])) == SegwitCount(Types(coins)) + if IsSegwit(c.scriptType) then 1 else 0
  {
    AppendTotals(coins, c);
    assert (coins + [c])[..|coins|] == coins;
    assert Types(coins + [c])[..|coins|] == Types(coins);
  }

  /** The coins of `coins` that the mask picks (or, with `keep` false, those it leaves), in order. */
  function Pick(coins: seq<Coin>, mask: seq<bool>, keep: bool): (r: seq<Coin>)
    requires |mask| == |coins|
  {
    if coins == [] then []
    else
      var n := |coins| - 1;
      Pick(coins[..n], mask[..n], keep) + if mask[n] == keep then [coins[n]] else []
  }

  lemma CountLast(coins: seq<Coin>, last: Coin, kept: bool, c: Coin)
    ensures multiset(coins + if kept then [last] else [])[c] == multiset(coins)[c] + if kept && last == c then 1 else 0
  {
    assert coins + [] == coins;
  }

  lemma CountFront(coins: seq<Coin>, c: Coin)
    requires coins != []
    ensures multiset(coins)[c] == multiset(coins[..|coins| - 1])[c] + if coins[|coins| - 1] == c then 1 else 0
  {
    assert coins == coins[..|coins| - 1] + [coins[|coins| - 1]];
  }

  /** The coins that have a property, in order. */
  function Having(coins: seq<Coin>, keeps: Coin -> bool): seq<Coin> {
    if coins == [] then [] else (if keeps(coins[0]) then [coins[0]] else []) + Having(coins[1..], keeps)
  }

  /** Everything about a list of coins that adds up. */
  datatype Tally = Tally(amount: nat, fees: nat, weight: nat, segwit: nat, count: nat) {
    function Plus(t: Tally): Tally {
      Tally(amount + t.amount, fees + t.fees, weight + t.weight, segwit + t.segwit, count + t.count)
    }
  }

  function TallyOf(rate: real, coins: seq<Coin>): Tally {
    if coins == [] then Tally(0, 0, 0, 0, 0)
    else TallyOf(rate, coins[..|coins| - 1]).Plus(TallyOfCoin(rate, coins[|coins| - 1]))
  }

  function TallyOfCoin(rate: real, c: Coin): Tally {
    Tally(c.amount, InputFee(rate, c), InputWeight(c.scriptType), if IsSegwit(c.scriptType) then 1 else 0, 1)
  }

  lemma TallyAppend(rate: real, coins: seq<Coin>, c: Coin)
    ensures TallyOf(rate, coins + [c]) == TallyOf(rate, coins).Plus(TallyOfCoin(rate, c))
  {
    assert (coins + [c])[..|coins|] == coins;
  }

  lemma {:induction false} TallyMeaning(rate: real, coins: seq<Coin>)
    ensures TallyOf(rate, coins)
            == Tally(Amounts(coins), InputFees(rate, coins), InputWeights(Types(coins)), SegwitCount(Types(coins)),
                     |coins|)
  {
    if coins != [] {
      var n := |coins| - 1;
      TallyMeaning(rate, coins[..n]);
      assert coins == coins[..n] + [coins[n]];
      Append(coins[..n], coins[n]);
    }
  }

  lemma PickLast(coins: seq<Coin>, mask: seq<bool>, c: Coin, b: bool)
    requires |mask| == |coins|
    ensures Pick(coins + [c], mask + [b], b) == Pick(coins, mask, b) + [c]
    ensures Pick(coins + [c], mask + [b], !b) == Pick(coins, mask, !b)
  {
    assert (coins + [c])[..|coins|] == coins && (mask + [b])[..|mask|] == mask;
  }

  /** A mask splits a list of coins: amounts, fees, weights and segwit counts all add up. */
  lemma {:induction false} PickSplits(front: seq<Coin>, coins: seq<Coin>, mask: seq<bool>, rate: real)
    requires |mask| == |coins|
    ensures TallyOf(rate, front + coins)
            == TallyOf(rate, front + Pick(coins, mask, true)).Plus(TallyOf(rate, Pick(coins, mask, false)))
  {
    hide TallyOf, TallyOfCoin, Pick;
    if coins == [] {
      PickOfNone(front, coins, mask, rate);
    } else {
      var n := |coins| - 1;
      var cs, ms, c := coins[..n], mask[..n], coins[n];
      var kept, dropped := Pick(cs, ms, true), Pick(cs, ms, false);
      assert coins == cs + [c] && mask == ms + [mask[n]];
      PickLast(cs, ms, c, mask[n]);
      PickSplits(front, cs, ms, rate);
      assert front + coins == (front + cs) + [c];
      TallyAppend(rate, front + cs, c);
      TallyAppend(rate, front + kept, c);
      TallyAppend(rate, dropped, c);
      PlusRegroups(TallyOf(rate, front + kept), TallyOf(rate, dropped), TallyOfCoin(rate, c));
      assert (front + kept) + [c] == front + (kept + [c]);
    }
  }

  lemma PickOfNone(front: seq<Coin>, coins: seq<Coin>, mask: seq<bool>, rate: real)
    requires coins == [] && mask == []
    ensures front + coins == front + Pick(coins, mask, true)
    ensures TallyOf(rate, Pick(coins, mask, false)) == Tally(0, 0, 0, 0, 0)
  {
  }

  lemma PlusRegroups(a: Tally, b: Tally, c: Tally)
    ensures a.Plus(b).Plus(c) == a.Plus(c).Plus(b) == a.Plus(b.Plus(c))
  {
  }

  lemma {:induction false} FeesOfWeights(rate: real, base: nat, coins: seq<Coin>)
    ensures CalculateFee(rate, base + InputWeights(Types(coins))) <= CalculateFee(rate, base) + InputFees(rate, coins)
  {
    if coins != [] {
      var n := |coins| - 1;
      FeesOfWeights(rate, base, coins[..n]);
      assert coins == coins[..n] + [coins[n]];
      Append(coins[..n], coins[n]);
      FeeSubadditive(rate, base + InputWeights(Types(coins[..n])), InputWeight(coins[n].scriptType));
    }
  }

  /** The weight a mixed or long input list costs beyond its inputs: what `all` pays over `kept`. */
  function ExtraOverhead(all: seq<ScriptType>, kept: seq<ScriptType>): int {
    InputOverhead(all) - InputOverhead(kept)
  }

  lemma OverheadGrows(c: nat, g: nat, c': nat, g': nat)
    requires g <= c && g' <= c' && c <= c' && g <= g' && c - g <= c' - g'
    ensures Overhead(c, g) <= Overhead(c', g')
  {
  }

  /** The central inequality.  Leaving coins out of a transaction saves at least the whole fee minus the
      coins' own fees and the fee of the overhead they brought. */
  lemma FeeOfDropped(front: seq<Coin>, coins: seq<Coin>, mask: seq<bool>, rate: real, outputWeights: seq<nat>)
    requires |mask| == |coins|
    ensures var kept := front + Pick(coins, mask, true);
            var extra := ExtraOverhead(Types(front + coins), Types(kept));
            && extra >= 0
            && CalculateFee(rate, TransactionWeight(Types(front + coins), outputWeights))
               <= CalculateFee(rate, TransactionWeight(Types(kept), outputWeights))
                  + InputFees(rate, Pick(coins, mask, false)) + CalculateFee(rate, extra)
  {
    var all, kept, dropped := front + coins, front + Pick(coins, mask, true), Pick(coins, mask, false);
    PickSplits(front, coins, mask, rate);
    WeightSplits(rate, all, kept, dropped, outputWeights);
    FeeOfParts(rate, TransactionWeight(Types(kept), outputWeights), dropped, ExtraOverhead(Types(all), Types(kept)),
               TransactionWeight(Types(all), outputWeights));
  }

  lemma FeeOfParts(rate: real, base: nat, coins: seq<Coin>, extra: nat, total: nat)
    requires total == base + InputWeights(Types(coins)) + extra
    ensures CalculateFee(rate, total) <= CalculateFee(rate, base) + InputFees(rate, coins) + CalculateFee(rate, extra)
  {
    FeesOfWeights(rate, base, coins);
    FeeSubadditive(rate, base + InputWeights(Types(coins)), extra);
  }

  lemma WeightSplits(rate: real, all: seq<Coin>, kept: seq<Coin>, dropped: seq<Coin>, ws: seq<nat>)
    requires TallyOf(rate, all) == TallyOf(rate, kept).Plus(TallyOf(rate, dropped))
    ensures ExtraOverhead(Types(all), Types(kept)) >= 0
    ensures TransactionWeight(Types(all), ws)
            == TransactionWeight(Types(kept), ws) + InputWeights(Types(dropped))
               + ExtraOverhead(Types(all), Types(kept))
  {
    TallyMeaning(rate, all);
    TallyMeaning(rate, kept);
    TallyMeaning(rate, dropped);
    SegwitCountBound(Types(all));
    SegwitCountBound(Types(kept));
    SegwitCountBound(Types(dropped));
    OverheadGrows(|kept|, SegwitCount(Types(kept)), |all|, SegwitCount(Types(all)));
  }
}
