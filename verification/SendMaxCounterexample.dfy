/** Three requests on which send-max does not do what its caller expects. */
module SendMaxCounterexample {
  import opened Weight
  import opened CoinSelection
  import opened CoinSelect
  import opened Permutation
  import opened SortTransaction
  import opened Compose
  import opened ComposeSoundness

  const CONFIRMED := ComposeInput("aa", 0, 5000, "", "", 10, false, true, false, SpendWitness)
  const YOUNG := ComposeInput("bb", 0, 1000, "", "", 1, true, true, true, SpendWitness)

  const TWO_MAXIMA := Request([CONFIRMED], [PayMax("bc1q"), PayMax("bc1q")], 1.0, 0, SpendWitness, KeepOrder)
  const MAX_AND_PAYMENT := Request([CONFIRMED], [PayMax("bc1q"), Payment("bc1q", 1000)], 1.0, 0, SpendWitness,
                                   KeepOrder)
  const REQUIRED_COINBASE := Request([CONFIRMED, YOUNG], [PayMax("bc1q")], 1.0, 0, SpendWitness, KeepOrder)

  const COIN := Coin(0, 5000, SpendWitness, false, 272)

  lemma Weights()
    ensures TransactionWeight([SpendWitness], [124]) == 438
    ensures TransactionWeight([SpendWitness], [124, 124]) == 562
  {
    assert [124, 124][..1] == [124] && Sum([124]) == 124 && Sum([124, 124]) == 248;
    assert InputWeights([SpendWitness]) == 272 && SegwitCount([SpendWitness]) == 1;
  }

  lemma Fees()
    ensures CalculateFee(1.0, 438) == 110 && CalculateFee(1.0, 562) == 141
  {
    WholeRateFee(1, 438);
    WholeRateFee(1, 562);
  }

  lemma MaxOf(o: Output)
    ensures OutputWeights([Output(0, 124, true)]) == [124] && SpecifiedSum([Output(0, 124, true)]) == 0
    ensures o.weight == 124 ==> OutputWeights([Output(0, 124, true), o]) == [124, 124]
    ensures SpecifiedSum([Output(0, 124, true), o]) == if o.isSendMax then 0 else o.amount
  {
    assert [Output(0, 124, true), o][..1] == [Output(0, 124, true)];
  }

  lemma OneCoin()
    ensures Amounts([COIN]) == 5000 && Types([COIN]) == [SpendWitness] && Indices([COIN]) == [0]
    ensures Mature([COIN], [10], [false]) == [COIN]
    ensures Mature([COIN, CoinAt(REQUIRED_COINBASE, 1)], [10, 1], [false, true]) == [COIN]
  {
    assert [COIN, CoinAt(REQUIRED_COINBASE, 1)][..1] == [COIN];
    assert Mature([COIN], [10, 1], [false, true]) == [COIN];
  }

  /** What send-max makes of the one coin. */
  lemma EmptiedByTwo(req: Request, specified: nat)
    requires (req == TWO_MAXIMA && specified == 0) || (req == MAX_AND_PAYMENT && specified == 1000)
    ensures Chosen(req) == SendMax([0], 5000 - specified - 141, 141, 562) && WantsMax(req)
  {
    hide TransactionWeight, CalculateFee, Mature, SpecifiedSum, OutputWeights;
    Weights();
    Fees();
    OneCoin();
    DustIsDefault(SpendWitness);
    assert StartsWith("bc1q", "bc1q");
    var o := OutputOf(req.outputs[1], SpendWitness);
    MaxOf(o);
    assert IsMax(req.outputs[0]) && CoinsOf(req) == [COIN];
    assert OutputsOf(req.outputs, SpendWitness) == [Output(0, 124, true), o];
    assert HistoryOf(req).confirmations == [10] && HistoryOf(req).coinbase == [false];
  }

  /** Two outputs that ask for the maximum get 4859 each out of a coin of 5000. */
  lemma TwoMaximaCreateMoney(res: ComposeResult)
    requires Describes(TWO_MAXIMA, SendMax([0], 4859, 141, 562), res)
    ensures Chosen(TWO_MAXIMA) == SendMax([0], 4859, 141, 562)
    ensures Sum(Map(Incoming, res.inputs)) == 5000 && Sum(Map(Outgoing, res.outputs)) == 9718
  {
    hide Chosen, Describes, Sum;
    EmptiedByTwo(TWO_MAXIMA, 0);
    MoneyOf(TWO_MAXIMA, SendMax([0], 4859, 141, 562), res);
    FilledTotals(TWO_MAXIMA.outputs, 4859);
    TwoLast(TWO_MAXIMA.outputs);
  }

  /** A payment beside the maximum leaves the wallet but is missing from the reported total. */
  lemma TotalLeavesOutThePayment(res: ComposeResult)
    requires Describes(MAX_AND_PAYMENT, SendMax([0], 3859, 141, 562), res)
    ensures Chosen(MAX_AND_PAYMENT) == SendMax([0], 3859, 141, 562)
    ensures Sum(Map(Outgoing, res.outputs)) + res.fee == 5000 && res.totalSpent == 4000
  {
    hide Chosen, Sum;
    EmptiedByTwo(MAX_AND_PAYMENT, 1000);
    MoneyOf(MAX_AND_PAYMENT, SendMax([0], 3859, 141, 562), res);
    FilledTotals(MAX_AND_PAYMENT.outputs, 3859);
    TwoLast(MAX_AND_PAYMENT.outputs);
  }

  /** The totals of a result that spends the one coin. */
  lemma MoneyOf(req: Request, sel: Selection, res: ComposeResult)
    requires Complete(req) && req.inputs == [CONFIRMED] && sel.SendMax? && sel.selected == [0]
             && Describes(req, sel, res)
    ensures Sum(Map(Incoming, res.inputs)) == 5000
    ensures Sum(Map(Outgoing, res.outputs)) == Sum(Map(Outgoing, Requested(req.outputs, sel.maxAmount)))
  {
    hide Requested;
    OutputsPermuted(req, sel, res);
    TotalPermutes(Outgoing, res.outputs, ComposedOutputs(req, sel));
    assert ComposedOutputs(req, sel) == Requested(req.outputs, sel.maxAmount);
    var ins := ComposedInputs(req, [0]);
    TotalPermutes(Incoming, res.inputs, ins);
    assert Map(Incoming, ins) == [5000] && Sum([5000]) == 5000;
  }

  lemma TwoLast(outputs: seq<ComposeOutput>)
    requires |outputs| == 2
    ensures MaxCount(outputs) == (if IsMax(outputs[0]) then 1 else 0) + if IsMax(outputs[1]) then 1 else 0
    ensures outputs[0].PayMax? && outputs[1].Payment? ==> PaymentsTotal(outputs) == outputs[1].amount
    ensures outputs[0].PayMax? && outputs[1].PayMax? ==> PaymentsTotal(outputs) == 0
  {
    var first := outputs[..1];
    assert first == [outputs[0]] && first[..0] == [];
    assert MaxCount(first) == (if IsMax(outputs[0]) then 1 else 0);
    assert outputs[0].PayMax? ==> PaymentsTotal(first) == 0;
  }

  /** A required coin that is immature coinbase is left out, although the order was kept. */
  lemma RequiredCoinbaseIsLeftOut()
    ensures Chosen(REQUIRED_COINBASE) == SendMax([0], 4890, 110, 438)
    ensures REQUIRED_COINBASE.inputs[1].required && Immature(REQUIRED_COINBASE.inputs[1])
  {
    hide TransactionWeight, CalculateFee, Mature, SpecifiedSum, OutputWeights;
    var req := REQUIRED_COINBASE;
    Weights();
    Fees();
    OneCoin();
    DustIsDefault(SpendWitness);
    assert StartsWith("bc1q", "bc1q");
    MaxOf(OutputOf(req.outputs[0], SpendWitness));
    assert IsMax(req.outputs[0]) && CoinsOf(req) == [COIN, CoinAt(req, 1)];
    assert OutputsOf(req.outputs, SpendWitness) == [Output(0, 124, true)];
    assert HistoryOf(req).confirmations == [10, 1] && HistoryOf(req).coinbase == [false, true];
  }
}
