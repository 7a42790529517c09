/** Where the effective-value sort of `compose_tx` is unsafe.  It moves coins away from the positions at which
    `try_confirmed` and `split` look up their confirmations; whatever is paid at whatever rate, there are inputs on
    which an immature coinbase coin gets spent. */
module SortCounterexample {
  import opened Weight
  import opened CoinSelection
  import opened Accumulative
  import opened GreedyCompleteness
  import opened CoinSelect
  import opened TryConfirmed
  import opened StableSort
  import opened SortTransaction
  import opened Compose
  import opened ComposeSoundness

  /** A confirmed required coin, and a larger coinbase coin with one confirmation. */
  function Lure(small: nat, large: nat): seq<ComposeInput> {
    [ComposeInput("aa", 0, small, "", "", 10, false, true, true, SpendWitness),
     ComposeInput("bb", 0, large, "", "", 1, true, true, false, SpendWitness)]
  }

  function Confirmed(small: nat): Coin {
    Coin(0, small, SpendWitness, true, 272)
  }

  function Young(large: nat): Coin {
    Coin(1, large, SpendWitness, false, 272)
  }

  /** In the order of the request. */
  const LURED := History([10, 1], [true, true], [false, true])

  lemma LureShape(req: Request, small: nat, large: nat)
    requires req.inputs == Lure(small, large)
    ensures CoinsOf(req) == [Confirmed(small), Young(large)] && HistoryOf(req) == LURED
  {
  }

  lemma SortSwaps(req: Request, small: nat, large: nat)
    requires req.inputs == Lure(small, large) && small < large && !req.strategy.KeepOrder?
    ensures SortedCoins(req) == [Young(large), Confirmed(small)]
  {
    hide CalculateFee;
    LureShape(req, small, large);
    var le, a, b := ByScore(req.feeRate), Confirmed(small), Young(large);
    assert [a, b][1..] == [b] && [b][1..] == [];
    assert Sort(le, [b]) == Insert(le, b, []) == [b];
    assert Score(req.feeRate, a) < Score(req.feeRate, b);
    assert !le(a, b);
    assert Insert(le, a, [b]) == [b] + Insert(le, a, []);
    assert Sort(le, [a, b]) == [b, a];
  }

  lemma Totals(a: Coin, b: Coin)
    ensures Amounts([a]) == a.amount && Types([a]) == [a.scriptType]
    ensures Amounts([b]) == b.amount && Types([b]) == [b.scriptType] && Indices([b]) == [b.index]
    ensures Amounts([a, b]) == a.amount + b.amount && Types([a, b]) == [a.scriptType, b.scriptType]
    ensures Indices([a, b]) == [a.index, b.index]
  {
    assert [a, b][..1] == [a];
  }

  lemma SomethingCosts(s: Spending)
    requires s.feeRate > 0.0
    ensures Price([SpendWitness], s) > 0
  {
    PositiveRateFee(s.feeRate, TransactionWeight([SpendWitness], OutputWeights(s.outputs)));
  }

  // ----- fixed payments -----

  lemma BothPass(small: nat, large: nat)
    ensures var coins := [Young(large), Confirmed(small)]; Filtered(coins, LURED, ConfFilter(1, 6)) == coins
  {
    var a, b := Confirmed(small), Young(large);
    assert [b, a][..1] == [b];
    assert Filtered([b], LURED, ConfFilter(1, 6)) == [b];
  }

  lemma BothSelected(small: nat, large: nat, s: Spending)
    requires !HasSendMax(s.outputs)
    requires !Pays([Confirmed(small)], s) && Pays([Confirmed(small), Young(large)], s)
    ensures var r := SelectFiltered([Young(large), Confirmed(small)], s, LURED); r.Success? && r.selected == [0, 1]
  {
    hide Pays, Finalize, CalculateFee, RequiredOf, OptionalOf, HasSendMax, Detrimental;
    var a, b := Confirmed(small), Young(large);
    var coins := [b, a];
    PairSplits(a, b);
    RequiredMeansGreedy(coins, s, ConfirmationsOf(coins, LURED), CoinbaseOf(coins, LURED));
    assert [b][1..] == [] && [a] + [b] == [a, b];
    PaysFinalizes([a], s);
    PaysFinalizes([a, b], s);
    assert Greedy(coins, s) == Extend([a], [b], s);
    Totals(a, b);
  }

  lemma PairSplits(a: Coin, b: Coin)
    requires a.required && !b.required
    ensures RequiredOf([b, a]) == [a] && OptionalOf([b, a]) == [b]
  {
    assert [b, a][1..] == [a] && [a][1..] == [];
    assert RequiredOf([]) == [] && OptionalOf([]) == [];
    assert RequiredOf([a]) == [a] && OptionalOf([a]) == [];
  }

  /** Whenever the required coin alone does not pay and both do, the young coinbase coin is spent. */
  lemma PaymentIsLured(req: Request, small: nat, large: nat)
    requires req.inputs == Lure(small, large) && small < large && !req.strategy.KeepOrder? && !WantsMax(req)
    requires !Pays([Confirmed(small)], SpendingOf(req)) && Pays([Confirmed(small), Young(large)], SpendingOf(req))
    ensures Chosen(req).Success? && Chosen(req).selected == [0, 1] && !SpendsConfirmed(req)
  {
    hide SelectFiltered, Filtered, SortedCoins, Pays;
    LureShape(req, small, large);
    SortSwaps(req, small, large);
    BothPass(small, large);
    MaxMatches(req);
    BothSelected(small, large, SpendingOf(req));
    assert OwnTrials(1, 6) == [ConfFilter(1, 6)] + OwnTrials(0, 6);
    assert Trials(1, 6)[0] == ConfFilter(1, 6);
    assert 1 in Chosen(req).selected && Immature(req.inputs[1]);
  }

  // ----- send-max -----

  lemma OnlyTheYoung(small: nat, large: nat)
    ensures Mature([Young(large), Confirmed(small)], LURED.confirmations, LURED.coinbase) == [Young(large)]
  {
    var a, b := Confirmed(small), Young(large);
    assert [b, a][..1] == [b];
    assert Mature([b], LURED.confirmations, LURED.coinbase) == [b];
  }

  /** What a single coin must be worth for send-max to leave more than dust. */
  function EnoughToEmpty(s: Spending): nat {
    SpecifiedSum(s.outputs) + CalculateFee(s.feeRate, TransactionWeight([SpendWitness], OutputWeights(s.outputs)))
    + s.baseFee + DustAmount(s.changeType)
  }

  /** Send-max spends the young coinbase coin and drops the confirmed one, though it is required. */
  lemma SendMaxIsLured(req: Request, small: nat, large: nat)
    requires req.inputs == Lure(small, large) && small < large && !req.strategy.KeepOrder? && WantsMax(req)
    requires large >= EnoughToEmpty(SpendingOf(req))
    ensures Chosen(req).SendMax? && Chosen(req).selected == [1] && !SpendsConfirmed(req)
  {
    hide SortedCoins, CalculateFee, TransactionWeight, SpecifiedSum, DustAmount, Mature;
    LureShape(req, small, large);
    SortSwaps(req, small, large);
    OnlyTheYoung(small, large);
    var b := Young(large);
    Totals(Confirmed(small), b);
    assert 1 in Chosen(req).selected && Immature(req.inputs[1]);
  }

  // ----- exactly when the engine is safe -----

  /** Whatever is paid, at whatever positive rate, all inputs are spent safely if and only if the order is kept. */
  lemma SafeExactlyInOrder(outputs: seq<ComposeOutput>, rate: real, baseFee: nat, changeType: ScriptType,
                           st: SortingStrategy)
    requires rate > 0.0
    ensures (forall inputs :: SpendsConfirmed(Request(inputs, outputs, rate, baseFee, changeType, st)))
            <==> st.KeepOrder?
  {
    hide SpendsConfirmed, SortedCoins, WantsMax;
    if st.KeepOrder? {
      forall inputs ensures SpendsConfirmed(Request(inputs, outputs, rate, baseFee, changeType, st)) {
        var req := Request(inputs, outputs, rate, baseFee, changeType, st);
        InPlaceExactly(req);
        if WantsMax(req) {
          MatureWhenInPlace(req);
        } else {
          ConfirmedWhenInPlace(req);
        }
      }
    } else {
      var inputs := SomeLure(outputs, rate, baseFee, changeType, st);
      assert !SpendsConfirmed(Request(inputs, outputs, rate, baseFee, changeType, st));
    }
  }

  lemma SomeLure(outputs: seq<ComposeOutput>, rate: real, baseFee: nat, changeType: ScriptType, st: SortingStrategy)
    returns (inputs: seq<ComposeInput>)
    requires rate > 0.0 && !st.KeepOrder?
    ensures !SpendsConfirmed(Request(inputs, outputs, rate, baseFee, changeType, st))
  {
    hide SpendsConfirmed, CalculateFee, TransactionWeight, SpecifiedSum, OutputSum, Chosen;
    var s := SpendingOf(Request([], outputs, rate, baseFee, changeType, st));
    var large := EnoughToEmpty(s) + Price([SpendWitness, SpendWitness], s);
    DustIsDefault(changeType);
    inputs := Lure(0, large);
    var req := Request(inputs, outputs, rate, baseFee, changeType, st);
    assert SpendingOf(req) == s;
    if WantsMax(req) {
      SendMaxIsLured(req, 0, large);
    } else {
      var a, b := Confirmed(0), Young(large);
      Totals(a, b);
      SomethingCosts(s);
      PaymentIsLured(req, 0, large);
    }
  }

  // ----- concrete requests -----

  function Shop(outputs: seq<ComposeOutput>, st: SortingStrategy): Request {
    Request(Lure(100, 5000), outputs, 1.0, 0, SpendWitness, st)
  }

  lemma ShopWeights()
    ensures TransactionWeight([SpendWitness], [124]) == 438
    ensures TransactionWeight([SpendWitness, SpendWitness], [124]) == 710
  {
    var w := [SpendWitness, SpendWitness];
    assert w[..1] == [SpendWitness] && Sum([124]) == 124;
    assert InputWeights([SpendWitness]) == 272 && SegwitCount([SpendWitness]) == 1;
    assert InputWeights(w) == 544 && SegwitCount(w) == 2;
  }

  /** A payment of 1000 from a required coin of 100 and a coinbase coin of 5000 with one confirmation spends both. */
  lemma ImmatureCoinbaseIsSpent(st: SortingStrategy)
    requires !st.KeepOrder?
    ensures var req := Shop([Payment("bc1q", 1000)], st);
            Chosen(req).Success? && Chosen(req).selected == [0, 1] && Immature(req.inputs[1]) && !req.inputs[1].required
  {
    hide TransactionWeight, CalculateFee, Chosen, SpendsConfirmed;
    var req := Shop([Payment("bc1q", 1000)], st);
    assert StartsWith("bc1q", "bc1q");
    assert OutputsOf(req.outputs, SpendWitness) == [Output(1000, 124, false)];
    assert OutputWeights(SpendingOf(req).outputs) == [124] && OutputSum(SpendingOf(req).outputs) == 1000;
    ShopWeights();
    WholeRateFee(1, 438);
    WholeRateFee(1, 710);
    Totals(Confirmed(100), Young(5000));
    PaymentIsLured(req, 100, 5000);
  }

  /** Emptying the same wallet spends the coinbase coin alone. */
  lemma SendMaxSpendsTheImmature(st: SortingStrategy)
    requires !st.KeepOrder?
    ensures var req := Shop([PayMax("bc1q")], st);
            && Chosen(req).SendMax? && Chosen(req).selected == [1]
            && Immature(req.inputs[1]) && req.inputs[0].required && !Immature(req.inputs[0])
  {
    hide TransactionWeight, CalculateFee, Chosen, SpendsConfirmed;
    var req := Shop([PayMax("bc1q")], st);
    assert StartsWith("bc1q", "bc1q");
    assert OutputsOf(req.outputs, SpendWitness) == [Output(0, 124, true)];
    assert OutputWeights(SpendingOf(req).outputs) == [124] && SpecifiedSum(SpendingOf(req).outputs) == 0;
    ShopWeights();
    WholeRateFee(1, 438);
    DustIsDefault(SpendWitness);
    assert IsMax(req.outputs[0]);
    SendMaxIsLured(req, 100, 5000);
  }
}
