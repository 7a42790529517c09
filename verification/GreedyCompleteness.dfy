/** Exactly when the greedy selector finds a payment that exists.  Whether it does depends on the script types of the
    coins, the fee rate and the output weights alone, and the condition can be checked before any amount is known. */
module GreedyCompleteness {
  import opened Weight
  import opened CoinSelection
  import opened Accumulative
  import opened CoinSelect

  // ----- lists of types -----

  function PickTypes(types: seq<ScriptType>, mask: seq<bool>, keep: bool): seq<ScriptType>
    requires |mask| == |types|
  {
    if types == [] then []
    else
      var n := |types| - 1;
      PickTypes(types[..n], mask[..n], keep) + if mask[n] == keep then [types[n]] else []
  }

  /** What spending coins of these types costs when each fee is rounded on its own. */
  function FeesOf(rate: real, types: seq<ScriptType>): nat {
    if types == [] then 0
    else FeesOf(rate, types[..|types| - 1]) + CalculateFee(rate, InputWeight(types[|types| - 1]))
  }

  function FeeOf(rate: real, types: seq<ScriptType>, ws: seq<nat>): nat {
    CalculateFee(rate, TransactionWeight(types, ws))
  }

  lemma {:induction false} TypesOfPick(coins: seq<Coin>, mask: seq<bool>, keep: bool)
    requires |mask| == |coins|
    ensures Types(Pick(coins, mask, keep)) == PickTypes(Types(coins), mask, keep)
  {
    if coins != [] {
      var n := |coins| - 1;
      TypesOfPick(coins[..n], mask[..n], keep);
      assert Types(coins)[..n] == Types(coins[..n]);
    }
  }

  lemma {:induction false} FeesOfTypes(rate: real, coins: seq<Coin>)
    ensures InputFees(rate, coins) == FeesOf(rate, Types(coins))
  {
    hide CalculateFee;
    if coins != [] {
      var n := |coins| - 1;
      FeesOfTypes(rate, coins[..n]);
      assert Types(coins)[..n] == Types(coins[..n]);
    }
  }

  lemma {:induction false} PickUpTo(coins: seq<Coin>, mask: seq<bool>, k: nat)
    requires |mask| == |coins| && k <= |coins| && forall i :: k <= i < |mask| ==> !mask[i]
    ensures Pick(coins, mask, true) == Pick(coins[..k], mask[..k], true)
    decreases |coins|
  {
    var n := |coins| - 1;
    if k == |coins| {
      assert coins[..k] == coins && mask[..k] == mask;
    } else {
      PickUpTo(coins[..n], mask[..n], k);
      assert coins[..n][..k] == coins[..k] && mask[..n][..k] == mask[..k];
    }
  }

  // ----- the condition -----

  /** The first `k` worthwhile coins, which reach past the last one chosen, cost no more together than the choice does
      plus the own fees of the coins among them it leaves out. */
  ghost predicate CoveredAt(required: seq<ScriptType>, optional: seq<ScriptType>, rate: real, ws: seq<nat>,
                            mask: seq<bool>,
                            k: nat)
    requires |mask| == |optional|
  {
    && 0 < k <= |optional| && (forall i :: k <= i < |mask| ==> !mask[i])
    && FeeOf(rate, required + optional[..k], ws)
       <= FeeOf(rate, required + PickTypes(optional, mask, true), ws)
          + FeesOf(rate, PickTypes(optional[..k], mask[..k], false))
  }

  ghost predicate Covered(required: seq<ScriptType>, optional: seq<ScriptType>, rate: real, ws: seq<nat>,
                          mask: seq<bool>)
    requires |mask| == |optional|
  {
    exists k :: CoveredAt(required, optional, rate, ws, mask, k)
  }

  ghost predicate Covers(required: seq<ScriptType>, optional: seq<ScriptType>, rate: real, ws: seq<nat>) {
    forall mask :: |mask| == |optional| && true in mask ==> Covered(required, optional, rate, ws, mask)
  }

  // ----- the property -----

  /** Coins and a payment of this shape; amounts, payments and base fee are free. */
  ghost predicate Shaped(coins: seq<Coin>, s: Spending, required: seq<ScriptType>, optional: seq<ScriptType>,
                         rate: real,
                         ws: seq<nat>) {
    && Types(RequiredOf(coins)) == required && Types(Worthwhile(OptionalOf(coins), rate)) == optional
    && s.feeRate == rate && OutputWeights(s.outputs) == ws
  }

  /** The required coins and the worthwhile ones the mask picks. */
  function Choice(coins: seq<Coin>, s: Spending, mask: seq<bool>): seq<Coin>
    requires |mask| == |Worthwhile(OptionalOf(coins), s.feeRate)|
  {
    RequiredOf(coins) + Pick(Worthwhile(OptionalOf(coins), s.feeRate), mask, true)
  }

  ghost predicate NoChoicePays(coins: seq<Coin>, s: Spending) {
    forall mask :: |mask| == |Worthwhile(OptionalOf(coins), s.feeRate)| && Choice(coins, s, mask) != [] ==>
                     !Pays(Choice(coins, s, mask), s)
  }

  ghost predicate GreedyCompleteFor(required: seq<ScriptType>, optional: seq<ScriptType>, rate: real, ws: seq<nat>) {
    forall coins, s :: Shaped(coins, s, required, optional, rate, ws) && Greedy(coins, s).InsufficientFunds? ==>
                         NoChoicePays(coins, s)
  }

  /** The same of the dispatcher, which tries branch-and-bound first. */
  ghost predicate SelectCompleteFor(required: seq<ScriptType>, optional: seq<ScriptType>, rate: real, ws: seq<nat>) {
    forall coins, s :: Shaped(coins, s, required, optional, rate, ws) && !HasSendMax(s.outputs)
                       && Select(coins, s, [], []).InsufficientFunds? ==>
                         NoChoicePays(coins, s)
  }

  // ----- the condition suffices -----

  lemma AttemptFails(coins: seq<Coin>, s: Spending, k: nat)
    requires Greedy(coins, s).InsufficientFunds? && 0 < k <= |Worthwhile(OptionalOf(coins), s.feeRate)|
    ensures !Pays(RequiredOf(coins) + Worthwhile(OptionalOf(coins), s.feeRate)[..k], s)
  {
    hide Greedy, Pays, RequiredOf, OptionalOf, Worthwhile;
    GreedyFailsExactly(coins, s);
  }

  lemma CoveredFails(coins: seq<Coin>, s: Spending, mask: seq<bool>, k: nat)
    requires |mask| == |Worthwhile(OptionalOf(coins), s.feeRate)| && Greedy(coins, s).InsufficientFunds?
    requires CoveredAt(Types(RequiredOf(coins)), Types(Worthwhile(OptionalOf(coins), s.feeRate)), s.feeRate,
                       OutputWeights(s.outputs), mask, k)
    ensures !Pays(Choice(coins, s, mask), s)
  {
    hide CalculateFee, TransactionWeight, RequiredOf, OptionalOf, Worthwhile, Pick, PickTypes, FeesOf, InputFees,
         Amounts,
         Greedy;
    var required, w := RequiredOf(coins), Worthwhile(OptionalOf(coins), s.feeRate);
    AttemptFails(coins, s, k);
    PickUpTo(w, mask, k);
    AmountsSplit(required, w[..k], mask[..k]);
    var kept, dropped := Pick(w[..k], mask[..k], true), Pick(w[..k], mask[..k], false);
    PickedAreThere(w[..k], mask[..k], false);
    WorthwhileIsNotDetrimental(OptionalOf(coins), s.feeRate);
    PaysItself(dropped, s.feeRate);
    TypesOfPick(w, mask, true);
    TypesOfPick(w[..k], mask[..k], false);
    FeesOfTypes(s.feeRate, dropped);
    assert Types(w[..k]) == Types(w)[..k];
    assert Types(required + w[..k]) == Types(required) + Types(w)[..k];
    assert Types(required + kept) == Types(required) + Types(kept);
  }

  lemma NothingPicked(coins: seq<Coin>, mask: seq<bool>)
    requires |mask| == |coins| && true !in mask
    ensures Pick(coins, mask, true) == []
  {
    PickUpTo(coins, mask, 0);
  }

  lemma CoversSuffices(coins: seq<Coin>, s: Spending)
    requires Covers(Types(RequiredOf(coins)), Types(Worthwhile(OptionalOf(coins), s.feeRate)), s.feeRate,
                    OutputWeights(s.outputs))
    requires Greedy(coins, s).InsufficientFunds?
    ensures NoChoicePays(coins, s)
  {
    hide Pays, Greedy, CoveredAt;
    var required, w := RequiredOf(coins), Worthwhile(OptionalOf(coins), s.feeRate);
    forall mask | |mask| == |w| && Choice(coins, s, mask) != [] ensures !Pays(Choice(coins, s, mask), s) {
      if true in mask {
        assert |mask| == |Types(w)|;
        assert Covered(Types(required), Types(w), s.feeRate, OutputWeights(s.outputs), mask);
        var k :| CoveredAt(Types(required), Types(w), s.feeRate, OutputWeights(s.outputs), mask, k);
        CoveredFails(coins, s, mask, k);
      } else {
        NothingPicked(w, mask);
        assert Choice(coins, s, mask) == required;
        GreedyFailsExactly(coins, s);
      }
    }
  }

  // ----- and is necessary: dropped coins worth exactly their fee, the last chosen one large -----

  lemma {:induction false} SumOfConcat(a: seq<Coin>, b: seq<Coin>)
    ensures Amounts(a + b) == Amounts(a) + Amounts(b)
  {
    if b == [] {
      assert a + b == a;
    } else {
      var n := |b| - 1;
      SumOfConcat(a, b[..n]);
      assert (a + b)[..|a + b| - 1] == a + b[..n];
    }
  }

  lemma {:induction false} SumOfZero(a: seq<Coin>)
    requires forall i :: 0 <= i < |a| ==> a[i].amount == 0
    ensures Amounts(a) == 0
  {
    if a != [] {
      SumOfZero(a[..|a| - 1]);
    }
  }

  lemma {:induction false} FeesSplit(rate: real, types: seq<ScriptType>, mask: seq<bool>)
    requires |mask| == |types|
    ensures FeesOf(rate, types)
            == FeesOf(rate, PickTypes(types, mask, true)) + FeesOf(rate, PickTypes(types, mask, false))
  {
    hide CalculateFee, PickTypes, FeesOf;
    if types == [] {
      assert PickTypes(types, mask, true) == [] == PickTypes(types, mask, false) && FeesOf(rate, []) == 0 by {
        EmptyTypes(rate, types, mask);
      }
    } else {
      var n := |types| - 1;
      FeesSplit(rate, types[..n], mask[..n]);
      assert types == types[..n] + [types[n]] && mask == mask[..n] + [mask[n]];
      PickTypesLast(types[..n], mask[..n], types[n], mask[n]);
      FeesAppend(rate, types[..n], types[n]);
      FeesAppend(rate, PickTypes(types[..n], mask[..n], mask[n]), types[n]);
    }
  }

  lemma EmptyTypes(rate: real, types: seq<ScriptType>, mask: seq<bool>)
    requires types == [] && mask == []
    ensures PickTypes(types, mask, true) == [] == PickTypes(types, mask, false) && FeesOf(rate, []) == 0
  {
  }

  lemma {:induction false} FeesOfPrefix(rate: real, types: seq<ScriptType>, k: nat)
    requires k <= |types|
    ensures FeesOf(rate, types[..k]) <= FeesOf(rate, types)
    decreases |types|
  {
    hide CalculateFee;
    if k == |types| {
      assert types[..k] == types;
    } else {
      FeesOfPrefix(rate, types[..|types| - 1], k);
      assert types[..|types| - 1][..k] == types[..k];
    }
  }

  /** Coins worth exactly their fee, but for the one at `last`, which is worth `extra` more. */
  ghost predicate Priced(w: seq<Coin>, rate: real, last: nat, extra: nat) {
    && last < |w|
    && forall i :: 0 <= i < |w| ==>
         !w[i].required && w[i].amount == InputFee(rate, w[i]) + if i == last then extra else 0
  }

  lemma {:induction false} PricedSum(w: seq<Coin>, rate: real, last: nat, extra: nat, mask: seq<bool>, keep: bool,
                                     k: nat)
    requires Priced(w, rate, last, extra) && |mask| == |w| && k <= |w|
    ensures Amounts(Pick(w[..k], mask[..k], keep))
            == FeesOf(rate, PickTypes(Types(w)[..k], mask[..k], keep))
               + if last < k && mask[last] == keep then extra else 0
    decreases k
  {
    hide CalculateFee, Pick, PickTypes, FeesOf, Amounts;
    if k == 0 {
      EmptySums(rate, w, mask, keep);
    } else {
      var n := k - 1;
      PricedSum(w, rate, last, extra, mask, keep, n);
      var ts := Types(w);
      assert w[..k] == w[..n] + [w[n]] && mask[..k] == mask[..n] + [mask[n]] && ts[..k] == ts[..n] + [ts[n]];
      PickLast(w[..n], mask[..n], w[n], mask[n]);
      PickTypesLast(ts[..n], mask[..n], ts[n], mask[n]);
      Append(Pick(w[..n], mask[..n], keep), w[n]);
      FeesAppend(rate, PickTypes(ts[..n], mask[..n], keep), ts[n]);
    }
  }

  lemma EmptySums(rate: real, w: seq<Coin>, mask: seq<bool>, keep: bool)
    ensures Amounts(Pick(w[..0], mask[..0], keep)) == 0 && FeesOf(rate, PickTypes(Types(w)[..0], mask[..0], keep)) == 0
  {
  }

  lemma PickTypesLast(types: seq<ScriptType>, mask: seq<bool>, t: ScriptType, b: bool)
    requires |mask| == |types|
    ensures PickTypes(types + [t], mask + [b], b) == PickTypes(types, mask, b) + [t]
    ensures PickTypes(types + [t], mask + [b], !b) == PickTypes(types, mask, !b)
  {
    assert (types + [t])[..|types|] == types && (mask + [b])[..|mask|] == mask;
  }

  lemma FeesAppend(rate: real, types: seq<ScriptType>, t: ScriptType)
    ensures FeesOf(rate, types + [t]) == FeesOf(rate, types) + CalculateFee(rate, InputWeight(t))
  {
    assert (types + [t])[..|types|] == types;
  }

  lemma {:induction false} OnlyOptional(w: seq<Coin>, rate: real)
    requires forall i :: 0 <= i < |w| ==> !w[i].required && !Detrimental(w[i], rate)
    ensures RequiredOf(w) == [] && OptionalOf(w) == w && Worthwhile(w, rate) == w
  {
    hide Detrimental;
    if w != [] {
      OnlyOptional(w[1..], rate);
      assert w == [w[0]] + w[1..];
    }
  }

  lemma {:induction false} RequiredThenOptional(r: seq<Coin>, w: seq<Coin>)
    requires (forall i :: 0 <= i < |r| ==> r[i].required) && RequiredOf(w) == [] && OptionalOf(w) == w
    ensures RequiredOf(r + w) == r && OptionalOf(r + w) == w
  {
    if r == [] {
      assert r + w == w;
    } else {
      RequiredThenOptional(r[1..], w);
      assert (r + w)[1..] == r[1..] + w;
      assert r == [r[0]] + r[1..];
    }
  }

  function PaymentOf(amount: nat, ws: seq<nat>): seq<Output> {
    seq(|ws|, i requires 0 <= i < |ws| => Output(if i == 0 then amount else 0, ws[i], false))
  }

  lemma {:induction false} PaymentTotal(amount: nat, ws: seq<nat>)
    requires ws != []
    ensures OutputSum(PaymentOf(amount, ws)) == amount && OutputWeights(PaymentOf(amount, ws)) == ws
    ensures !HasSendMax(PaymentOf(amount, ws))
  {
    var n := |ws| - 1;
    if n > 0 {
      PaymentTotal(amount, ws[..n]);
    } else {
      assert PaymentOf(amount, ws)[..0] == [];
    }
    assert PaymentOf(amount, ws)[..n] == PaymentOf(amount, ws[..n]);
  }

  lemma LastChosen(mask: seq<bool>) returns (last: nat)
    requires true in mask
    ensures last < |mask| && mask[last] && forall i :: last < i < |mask| ==> !mask[i]
  {
    last := |mask| - 1;
    while !mask[last]
      invariant last < |mask| && forall i :: last < i < |mask| ==> !mask[i]
      invariant exists j :: 0 <= j <= last && mask[j]
      decreases last
    {
      last := last - 1;
    }
  }

  function RequiredCoins(types: seq<ScriptType>): seq<Coin> {
    seq(|types|, i requires 0 <= i < |types| => Coin(0, 0, types[i], true, 0))
  }

  function PricedCoins(types: seq<ScriptType>, rate: real, last: nat, extra: nat): seq<Coin> {
    seq(|types|, i requires 0 <= i < |types| =>
      Coin(0, CalculateFee(rate, InputWeight(types[i])) + if i == last then extra else 0, types[i], false, 0))
  }

  lemma PrefixSum(r: seq<Coin>, w: seq<Coin>, mask: seq<bool>, k: nat)
    requires |mask| == |w| && k <= |w| && Amounts(r) == 0
    ensures Amounts(r + w[..k]) == Amounts(Pick(w[..k], mask[..k], true)) + Amounts(Pick(w[..k], mask[..k], false))
  {
    hide Pick, Amounts;
    SumOfConcat(r, w[..k]);
    var none: seq<Coin> := [];
    AmountsSplit(none, w[..k], mask[..k]);
    assert none + w[..k] == w[..k] && none + Pick(w[..k], mask[..k], true) == Pick(w[..k], mask[..k], true);
  }

  /** A prefix without the large coin is worth no more than its fees. */
  lemma ShortPrefixFails(r: seq<Coin>, w: seq<Coin>, s: Spending, mask: seq<bool>, last: nat, extra: nat, k: nat)
    requires |mask| == |w| && k <= last && Priced(w, s.feeRate, last, extra) && Amounts(r) == 0
    requires OutputSum(s.outputs) > FeesOf(s.feeRate, Types(w))
    ensures !Pays(r + w[..k], s)
  {
    hide CalculateFee, TransactionWeight, Pick, PickTypes, FeesOf, Amounts, InputFee, OutputSum;
    PrefixSum(r, w, mask, k);
    PricedSum(w, s.feeRate, last, extra, mask, true, k);
    PricedSum(w, s.feeRate, last, extra, mask, false, k);
    FeesSplit(s.feeRate, Types(w)[..k], mask[..k]);
    FeesOfPrefix(s.feeRate, Types(w), k);
  }

  /** A prefix with the large coin has the amount of the choice and the fees of what it leaves out, and needs more. */
  lemma LongPrefixFails(r: seq<Coin>, w: seq<Coin>, s: Spending, mask: seq<bool>, last: nat, extra: nat, k: nat)
    requires |mask| == |w| && last < k <= |w| && mask[last] && forall i :: last < i < |mask| ==> !mask[i]
    requires Priced(w, s.feeRate, last, extra) && Amounts(r) == 0
    requires Amounts(Pick(w, mask, true)) == Price(Types(r + Pick(w, mask, true)), s)
    requires !CoveredAt(Types(r), Types(w), s.feeRate, OutputWeights(s.outputs), mask, k)
    ensures !Pays(r + w[..k], s)
  {
    hide CalculateFee, TransactionWeight, Pick, PickTypes, FeesOf, Amounts, InputFee, OutputSum, Priced;
    PrefixSum(r, w, mask, k);
    PickUpTo(w, mask, k);
    PricedSum(w, s.feeRate, last, extra, mask, false, k);
    TypesOfPick(w, mask, true);
    assert Types(r + Pick(w, mask, true)) == Types(r) + PickTypes(Types(w), mask, true);
    assert Types(r + w[..k]) == Types(r) + Types(w)[..k];
  }

  /** The large coin makes the choice pay exactly. */
  lemma ChoicePaysExactly(r: seq<Coin>, w: seq<Coin>, s: Spending, mask: seq<bool>, last: nat, extra: nat)
    requires |mask| == |w| && last < |w| && mask[last] && Priced(w, s.feeRate, last, extra) && Amounts(r) == 0
             && s.baseFee == 0
    requires extra + FeesOf(s.feeRate, PickTypes(Types(w), mask, true))
             == OutputSum(s.outputs)
                + FeeOf(s.feeRate, Types(r) + PickTypes(Types(w), mask, true), OutputWeights(s.outputs))
    ensures Amounts(Pick(w, mask, true)) == Price(Types(r + Pick(w, mask, true)), s)
    ensures Amounts(r + Pick(w, mask, true)) == Amounts(Pick(w, mask, true))
  {
    hide CalculateFee, TransactionWeight, Pick, PickTypes, FeesOf, Amounts, OutputSum, Priced;
    PricedSum(w, s.feeRate, last, extra, mask, true, |w|);
    assert w[..|w|] == w && mask[..|w|] == mask && Types(w)[..|w|] == Types(w);
    TypesOfPick(w, mask, true);
    assert Types(r + Pick(w, mask, true)) == Types(r) + PickTypes(Types(w), mask, true);
    SumOfConcat(r, Pick(w, mask, true));
  }

  /** No attempt of the greedy selector pays. */
  lemma NoAttemptPays(r: seq<Coin>, w: seq<Coin>, s: Spending, mask: seq<bool>, last: nat, extra: nat)
    requires |mask| == |w| && last < |w| && mask[last] && forall i :: last < i < |mask| ==> !mask[i]
    requires Priced(w, s.feeRate, last, extra) && Amounts(r) == 0 && Worthwhile(w, s.feeRate) == w
    requires OutputSum(s.outputs) > FeesOf(s.feeRate, Types(w))
    requires Amounts(Pick(w, mask, true)) == Price(Types(r + Pick(w, mask, true)), s)
    requires !Covered(Types(r), Types(w), s.feeRate, OutputWeights(s.outputs), mask)
    ensures !Pays(r, s) && !SomeAttemptPays(r, w, s)
  {
    hide CalculateFee, TransactionWeight, Pick, FeesOf, Amounts, OutputSum, Worthwhile, CoveredAt;
    forall k | 0 < k <= |w| ensures !Pays(r + w[..k], s) {
      assert !CoveredAt(Types(r), Types(w), s.feeRate, OutputWeights(s.outputs), mask, k);
      if k <= last {
        ShortPrefixFails(r, w, s, mask, last, extra, k);
      } else {
        LongPrefixFails(r, w, s, mask, last, extra, k);
      }
    }
    assert !Detrimental(w[|w| - 1], s.feeRate);
  }

  /** An uncovered choice gives coins and a payment it pays while the greedy selector fails. */
  lemma Uncovered(required: seq<ScriptType>, optional: seq<ScriptType>, rate: real, ws: seq<nat>, mask: seq<bool>)
    returns (coins: seq<Coin>, s: Spending)
    requires ws != [] && |mask| == |optional| && true in mask && !Covered(required, optional, rate, ws, mask)
    ensures Shaped(coins, s, required, optional, rate, ws) && !HasSendMax(s.outputs)
    ensures Greedy(coins, s).InsufficientFunds? && !NoChoicePays(coins, s)
  {
    hide CalculateFee, TransactionWeight, Pick, PickTypes, FeesOf, Amounts, Greedy, Covered, OutputSum, SomeAttemptPays,
         RequiredOf, OptionalOf, Worthwhile, FeeOf, HasSendMax;
    var last := LastChosen(mask);
    var amount := 1 + FeesOf(rate, optional);
    FeesSplit(rate, optional, mask);
    var chosenFees := FeesOf(rate, PickTypes(optional, mask, true));
    var extra: nat := amount + FeeOf(rate, required + PickTypes(optional, mask, true), ws) - chosenFees;
    var r, w := RequiredCoins(required), PricedCoins(optional, rate, last, extra);
    coins, s := r + w, Spending(PaymentOf(amount, ws), rate, 0, SpendWitness);
    assert Types(r) == required && Types(w) == optional;
    assert Priced(w, rate, last, extra);
    OnlyOptional(w, rate);
    RequiredThenOptional(r, w);
    PaymentTotal(amount, ws);
    SumOfZero(r);
    ChoicePaysExactly(r, w, s, mask, last, extra);
    NoAttemptPays(r, w, s, mask, last, extra);
    GreedyFailsExactly(coins, s);
    var choice := r + Pick(w, mask, true);
    assert Choice(coins, s, mask) == choice;
    assert choice != [] by { assert Amounts(choice) > 0; EmptySum(); }
  }

  lemma EmptySum()
    ensures Amounts([]) == 0
  {
  }

  /** For given script types, fee rate and output weights the greedy selector is complete for all amounts, payments and
      base fees if and only if every choice of worthwhile coins is covered. */
  lemma GreedyCompleteExactly(required: seq<ScriptType>, optional: seq<ScriptType>, rate: real, ws: seq<nat>)
    requires ws != []
    ensures GreedyCompleteFor(required, optional, rate, ws) <==> Covers(required, optional, rate, ws)
  {
    hide Greedy, Covered, NoChoicePays;
    if Covers(required, optional, rate, ws) {
      forall coins, s | Shaped(coins, s, required, optional, rate, ws) && Greedy(coins, s).InsufficientFunds?
        ensures NoChoicePays(coins, s)
      {
        CoversSuffices(coins, s);
      }
    } else {
      var mask :| |mask| == |optional| && true in mask && !Covered(required, optional, rate, ws, mask);
      var coins, s := Uncovered(required, optional, rate, ws, mask);
    }
  }

  /** A required coin rules out branch-and-bound. */
  lemma RequiredMeansGreedy(coins: seq<Coin>, s: Spending, confirmations: seq<nat>, coinbase: seq<bool>)
    requires RequiredOf(coins) != [] && !HasSendMax(s.outputs)
    ensures Select(coins, s, confirmations, coinbase) == Greedy(coins, s)
  {
    hide Greedy, RequiredOf;
  }

  /** Where a coin is required the same condition is exact for the dispatcher. */
  lemma SelectCompleteExactly(required: seq<ScriptType>, optional: seq<ScriptType>, rate: real, ws: seq<nat>)
    requires ws != [] && required != []
    ensures SelectCompleteFor(required, optional, rate, ws) <==> Covers(required, optional, rate, ws)
  {
    hide Greedy, Covered, NoChoicePays, Select, HasSendMax, RequiredOf, OptionalOf, Worthwhile;
    if Covers(required, optional, rate, ws) {
      forall coins, s | Shaped(coins, s, required, optional, rate, ws) && !HasSendMax(s.outputs)
                        && Select(coins, s, [], []).InsufficientFunds?
        ensures NoChoicePays(coins, s)
      {
        assert RequiredOf(coins) != [];
        RequiredMeansGreedy(coins, s, [], []);
        CoversSuffices(coins, s);
      }
    } else {
      var mask :| |mask| == |optional| && true in mask && !Covered(required, optional, rate, ws, mask);
      var coins, s := Uncovered(required, optional, rate, ws, mask);
      assert RequiredOf(coins) != [];
      RequiredMeansGreedy(coins, s, [], []);
    }
  }

  // ----- an input the engine fails on -----

  const PINNED := Coin(0, 148, SpendAddress, true, 592)
  const SEGWIT := Coin(1, 68, SpendWitness, false, 272)
  const LEGACY := Coin(2, 1192, SpendAddress, false, 592)
  const PAYMENT := Spending([Output(1000, 136, false)], 1.0, 0, SpendWitness)

  lemma MixedWeights()
    ensures TransactionWeight([SpendAddress, SpendAddress], [136]) == 1360
    ensures TransactionWeight([SpendAddress, SpendWitness, SpendAddress], [136]) == 1636
  {
    var two, three := [SpendAddress, SpendAddress], [SpendAddress, SpendWitness, SpendAddress];
    assert two[..1] == [SpendAddress] && three[..2] == [SpendAddress, SpendWitness]
           && three[..2][..1] == [SpendAddress];
    assert Sum([136]) == 136;
    assert InputWeights([SpendAddress]) == 592 && SegwitCount([SpendAddress]) == 0;
    assert InputWeights(two) == 1184 && SegwitCount(two) == 0;
    assert InputWeights([SpendAddress, SpendWitness]) == 864 && SegwitCount([SpendAddress, SpendWitness]) == 1;
    assert InputWeights(three) == 1456 && SegwitCount(three) == 1;
  }

  lemma MixedPrices()
    ensures Price([SpendAddress, SpendAddress], PAYMENT) == 1340
    ensures Price([SpendAddress, SpendWitness, SpendAddress], PAYMENT) == 1409
    ensures CalculateFee(1.0, 272) == 68 && CalculateFee(1.0, 592) == 148
    ensures OutputSum(PAYMENT.outputs) == 1000
  {
    hide TransactionWeight, CalculateFee;
    MixedWeights();
    assert OutputWeights(PAYMENT.outputs) == [136];
    WholeRateFee(1, 1360);
    WholeRateFee(1, 1636);
    WholeRateFee(1, 272);
    WholeRateFee(1, 592);
  }

  lemma MixedSums()
    ensures Amounts([PINNED]) == 148 && Amounts([PINNED, SEGWIT]) == 216
    ensures Amounts([PINNED, LEGACY]) == 1340 && Amounts([PINNED, SEGWIT, LEGACY]) == 1408
    ensures Types([PINNED, LEGACY]) == [SpendAddress, SpendAddress]
    ensures Types([PINNED, SEGWIT, LEGACY]) == [SpendAddress, SpendWitness, SpendAddress]
  {
    assert [PINNED, SEGWIT][..1] == [PINNED] && [PINNED, LEGACY][..1] == [PINNED];
    assert [PINNED, SEGWIT, LEGACY][..2] == [PINNED, SEGWIT];
  }

  /** A segwit coin worth exactly its fee is taken before a legacy one: the required coin and the legacy one pay
      exactly, but not the marker and witness bytes of the mix, and the dispatcher reports insufficient funds. */
  lemma MixedCoinsFail()
    ensures var coins := [PINNED, SEGWIT, LEGACY];
            && RequiredOf(coins) == [PINNED] && Worthwhile(OptionalOf(coins), 1.0) == [SEGWIT, LEGACY]
            && Pays([PINNED, LEGACY], PAYMENT)
            && Greedy(coins, PAYMENT).InsufficientFunds?
            && Select(coins, PAYMENT, [], []).InsufficientFunds?
  {
    hide Finalize, CalculateFee, TransactionWeight, FeeWithChange, Amounts, OutputSum, Greedy, Select, RequiredOf,
         OptionalOf, Worthwhile;
    MixedPrices();
    MixedSums();
    var coins := [PINNED, SEGWIT, LEGACY];
    MixedLists();
    MixedAttempts();
    GreedyFailsExactly(coins, PAYMENT);
    RequiredMeansGreedy(coins, PAYMENT, [], []);
  }

  lemma MixedLists()
    ensures var coins, tail := [PINNED, SEGWIT, LEGACY], [SEGWIT, LEGACY];
            RequiredOf(coins) == [PINNED] && OptionalOf(coins) == tail && Worthwhile(tail, 1.0) == tail
  {
    hide CalculateFee, Worthwhile;
    MixedPrices();
    var tail := [SEGWIT, LEGACY];
    assert [PINNED] + tail == [PINNED, SEGWIT, LEGACY];
    OnlyOptional(tail, 1.0);
    RequiredThenOptional([PINNED], tail);
  }

  lemma MixedAttempts()
    requires Worthwhile([SEGWIT, LEGACY], 1.0) == [SEGWIT, LEGACY]
    ensures !Pays([PINNED], PAYMENT) && !SomeAttemptPays([PINNED], [SEGWIT, LEGACY], PAYMENT)
  {
    hide CalculateFee, TransactionWeight, Amounts, OutputSum, Worthwhile;
    MixedPrices();
    MixedSums();
    var w := [SEGWIT, LEGACY];
    assert [PINNED] + w[..1] == [PINNED, SEGWIT] && [PINNED] + w[..2] == [PINNED, SEGWIT, LEGACY];
    forall k | 0 < k <= 2 ensures !Pays([PINNED] + w[..k], PAYMENT) {
      assert k == 1 || k == 2;
    }
    assert !Detrimental(LEGACY, 1.0);
  }
}
