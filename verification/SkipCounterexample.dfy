/** Why `try_confirmed` may only skip by length when its trials relax.  With `other == 0` the trial (0, 1) asks more
    of foreign coins than its predecessors did, and a list of equal length may hold different coins. */
module SkipCounterexample {
  import opened Weight
  import opened CoinSelection
  import opened Accumulative
  import opened BranchAndBound
  import opened TryConfirmed

  const PINNED := Coin(0, 100, SpendWitness, true, 272)
  const FOREIGN := Coin(1, 100, SpendWitness, false, 272)
  const OWN := Coin(2, 2000, SpendWitness, false, 272)
  const ALL := [PINNED, FOREIGN, OWN]
  const PAYMENT := Spending([Output(1000, 124, false)], 1.0, 0, SpendWitness)
  const UNCONFIRMED := History([0, 0, 0], [false, false, true], [])

  lemma Weights()
    ensures TransactionWeight([SpendWitness], [124]) == 438
    ensures TransactionWeight([SpendWitness, SpendWitness], [124]) == 710
    ensures TransactionWeight([SpendWitness, SpendWitness, SpendWitness], [124]) == 982
  {
    var w1, w2 := [SpendWitness], [SpendWitness, SpendWitness];
    var w3 := [SpendWitness, SpendWitness, SpendWitness];
    assert w2[..1] == w1 && w3[..2] == w2;
    assert Sum([124]) == 124;
    assert InputWeights(w1) == 272 && SegwitCount(w1) == 1;
    assert InputWeights(w2) == 544 && SegwitCount(w2) == 2;
    assert InputWeights(w3) == 816 && SegwitCount(w3) == 3;
  }

  lemma Prices()
    ensures Price([SpendWitness], PAYMENT) == 1110
    ensures Price([SpendWitness, SpendWitness], PAYMENT) == 1178
    ensures Price([SpendWitness, SpendWitness, SpendWitness], PAYMENT) == 1246
    ensures CalculateFee(1.0, 272) == 68
  {
    hide TransactionWeight, CalculateFee;
    Weights();
    assert OutputWeights(PAYMENT.outputs) == [124] && OutputSum(PAYMENT.outputs) == 1000;
    WholeRateFee(1, 438);
    WholeRateFee(1, 710);
    WholeRateFee(1, 982);
    WholeRateFee(1, 272);
  }

  lemma ListsOfCoins(a: Coin, b: Coin, c: Coin)
    ensures Amounts([a]) == a.amount && Types([a]) == [a.scriptType]
    ensures Amounts([a, b]) == a.amount + b.amount && Types([a, b]) == [a.scriptType, b.scriptType]
    ensures Amounts([a, b, c]) == a.amount + b.amount + c.amount
    ensures Types([a, b, c]) == [a.scriptType, b.scriptType, c.scriptType]
    ensures Indices([a, b]) == [a.index, b.index] && Indices([a, b, c]) == [a.index, b.index, c.index]
  {
    assert [a, b][..1] == [a] && [a, b, c][..2] == [a, b];
  }

  lemma PairSplits(a: Coin, b: Coin)
    requires a.required && !b.required
    ensures RequiredOf([a, b]) == [a] && OptionalOf([a, b]) == [b]
    ensures RequiredOf([b, a]) == [a] && OptionalOf([b, a]) == [b]
  {
    assert [a, b][1..] == [b] && [b, a][1..] == [a] && [a][1..] == [] && [b][1..] == [];
    assert RequiredOf([]) == [] && OptionalOf([]) == [];
    assert RequiredOf([a]) == [a] && OptionalOf([a]) == [] && RequiredOf([b]) == [] && OptionalOf([b]) == [b];
  }

  /** The pinned coin rules out branch-and-bound; the greedy selector then adds `x`. */
  lemma SelectPair(x: Coin)
    requires x == FOREIGN || x == OWN
    ensures var r := SelectFiltered([PINNED, x], PAYMENT, UNCONFIRMED);
            if x == FOREIGN then r.InsufficientFunds? else r.Success? && r.selected == [0, 2]
  {
    hide CalculateFee, TransactionWeight, FeeWithChange, Price, SearchSpace, Positive, Amounts, RequiredOf, OptionalOf;
    Prices();
    ListsOfCoins(PINNED, x, x);
    var coins := [PINNED, x];
    PairSplits(PINNED, x);
    assert [x][1..] == [] && [PINNED] + [x] == coins;
    assert !Pays([PINNED], PAYMENT);
    assert Greedy(coins, PAYMENT) == Extend([PINNED], [x], PAYMENT);
    assert Pays(coins, PAYMENT) <==> x == OWN;
    assert Extend(coins, [], PAYMENT).InsufficientFunds?;
  }

  lemma SelectThree()
    ensures var r := SelectFiltered(ALL, PAYMENT, UNCONFIRMED);
            r.Success? && r.selected == [0, 1, 2]
  {
    hide CalculateFee, TransactionWeight, FeeWithChange, Price, SearchSpace, Positive;
    Prices();
    ListsOfCoins(PINNED, FOREIGN, OWN);
    assert ALL[1..] == [FOREIGN, OWN] && [FOREIGN, OWN][1..] == [OWN] && [OWN][1..] == [];
    assert RequiredOf([OWN]) == [] && OptionalOf([OWN]) == [OWN];
    assert RequiredOf([FOREIGN, OWN]) == [] && OptionalOf([FOREIGN, OWN]) == [FOREIGN, OWN];
    assert RequiredOf(ALL) == [PINNED] && OptionalOf(ALL) == [FOREIGN, OWN];
    assert [PINNED] + [FOREIGN] == [PINNED, FOREIGN] && [PINNED, FOREIGN] + [OWN] == ALL;
    assert !Pays([PINNED], PAYMENT) && !Pays([PINNED, FOREIGN], PAYMENT) && Pays(ALL, PAYMENT);
    assert Greedy(ALL, PAYMENT) == Extend([PINNED], [FOREIGN, OWN], PAYMENT);
    assert Extend([PINNED], [FOREIGN, OWN], PAYMENT) == Extend([PINNED, FOREIGN], [OWN], PAYMENT);
  }

  lemma Lists(own: nat)
    requires own >= 1
    ensures Filtered(ALL, UNCONFIRMED, ConfFilter(own, 0)) == [PINNED, FOREIGN]
    ensures Filtered(ALL, UNCONFIRMED, ConfFilter(0, 1)) == [PINNED, OWN]
    ensures Filtered(ALL, UNCONFIRMED, ConfFilter(0, 0)) == ALL
  {
    assert ALL[..2] == [PINNED, FOREIGN] && ALL[..2][..1] == [PINNED];
    forall f: ConfFilter
      ensures Filtered([PINNED], UNCONFIRMED, f) == [PINNED]
      ensures Filtered([PINNED, FOREIGN], UNCONFIRMED, f) == if f.otherMin == 0 then [PINNED, FOREIGN] else [PINNED]
    {
      assert [PINNED, FOREIGN][..1] == [PINNED];
    }
  }

  lemma {:induction false} SkippingRun(own: nat)
    ensures TryFrom(ALL, PAYMENT, UNCONFIRMED, OwnTrials(own, 0) + [ConfFilter(0, 1), ConfFilter(0, 0)], 2)
            == SelectFiltered(ALL, PAYMENT, UNCONFIRMED)
  {
    hide SelectFiltered, Filtered;
    var rest := [ConfFilter(0, 1), ConfFilter(0, 0)];
    if own == 0 {
      Lists(1);
      SelectThree();
      assert OwnTrials(own, 0) + rest == rest && rest[1..] == [ConfFilter(0, 0)];
      assert TryFrom(ALL, PAYMENT, UNCONFIRMED, [ConfFilter(0, 0)], 2) == SelectFiltered(ALL, PAYMENT, UNCONFIRMED);
    } else {
      Lists(own);
      SkippingRun(own - 1);
      assert (OwnTrials(own, 0) + rest)[1..] == OwnTrials(own - 1, 0) + rest;
    }
  }

  lemma {:induction false} PlainRun(own: nat)
    ensures TryEvery(ALL, PAYMENT, UNCONFIRMED, OwnTrials(own, 0) + [ConfFilter(0, 1), ConfFilter(0, 0)])
            == SelectFiltered([PINNED, OWN], PAYMENT, UNCONFIRMED)
  {
    hide SelectFiltered, Filtered;
    var rest := [ConfFilter(0, 1), ConfFilter(0, 0)];
    if own == 0 {
      Lists(1);
      SelectPair(OWN);
      assert OwnTrials(own, 0) + rest == rest;
    } else {
      Lists(own);
      SelectPair(FOREIGN);
      PlainRun(own - 1);
      assert (OwnTrials(own, 0) + rest)[1..] == OwnTrials(own - 1, 0) + rest;
    }
  }

  lemma SkipLosesATrial(own: nat)
    requires own >= 1
    ensures TryFrom(ALL, PAYMENT, UNCONFIRMED, Trials(own, 0), 0) != TryEvery(ALL, PAYMENT, UNCONFIRMED, Trials(own, 0))
  {
    hide SelectFiltered, Filtered;
    var rest := [ConfFilter(0, 1), ConfFilter(0, 0)];
    assert Trials(own, 0) == OwnTrials(own, 0) + rest;
    assert Trials(own, 0)[1..] == OwnTrials(own - 1, 0) + rest;
    Lists(own);
    SelectPair(FOREIGN);
    SelectPair(OWN);
    SelectThree();
    SkippingRun(own - 1);
    PlainRun(own);
  }

  /** Skipping a trial by the length of its list alone is right for all coins, payments and histories exactly
      when `other >= 1` or `own == 0`. */
  lemma SkipIsSoundExactly(own: nat, other: nat)
    ensures (forall coins, s, h ::
               TryFrom(coins, s, h, Trials(own, other), 0) == TryEvery(coins, s, h, Trials(own, other)))
            <==> other >= 1 || own == 0
  {
    hide TryFrom, TryEvery;
    if other >= 1 || own == 0 {
      forall coins, s, h {
        TryConfirmedIsTryEvery(coins, s, h, own, other);
      }
    } else {
      SkipLosesATrial(own);
    }
  }
}
