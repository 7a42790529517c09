/** What a composed transaction guarantees, in terms of the request and the result alone. */
module ComposeSoundness {
  import opened Weight
  import opened CoinSelection
  import opened Accumulative
  import opened CoinSelect
  import opened TryConfirmed
  import opened StableSort
  import opened Permutation
  import opened SortTransaction
  import opened Compose
  import opened BranchAndBound

  function Incoming(i: ComposedInput): nat { i.amount }

  function TypeOf(i: ComposedInput): ScriptType { i.scriptType }

  function CoinAmount(c: Coin): nat { c.amount }

  /** The inputs are coins of the request, each at most once. */
  ghost predicate InputsFromRequest(req: Request, inputs: seq<ComposedInput>) {
    && Distinct(inputs)
    && forall k :: 0 <= k < |inputs| ==>
                     && inputs[k].index < |req.inputs|
                     && var u := req.inputs[inputs[k].index];
                        && inputs[k].txid == u.txid && inputs[k].vout == u.vout && inputs[k].amount == u.amount
                        && inputs[k].address == u.address && inputs[k].path == u.path
                        && inputs[k].scriptType == u.scriptType
  }

  ghost predicate Conserves(res: ComposeResult)
    requires res.Final?
  {
    Sum(Map(Incoming, res.inputs)) == Sum(Map(Outgoing, res.outputs)) + res.fee
  }

  /** What an output of the finished transaction weighs. */
  function WeightOf(o: ComposedOutput): nat {
    match o
    case PaymentOut(address, _) => OutputWeight(ScriptTypeFromAddress(address))
    case ChangeOut(_, _, _, scriptType) => OutputWeight(scriptType)
    case OpReturnOut(dataHex) => 4 * (8 + 1 + 2 + |dataHex| / 2)
  }

  /** The reported size is that of a transaction with exactly these inputs and outputs. */
  ghost predicate Sized(res: ComposeResult)
    requires res.Final?
  {
    res.bytes == WeightToVbytes(TransactionWeight(Map(TypeOf, res.inputs), Map(WeightOf, res.outputs)))
  }

  /** The whole account of a fixed payment. */
  ghost predicate Sound(req: Request, res: ComposeResult)
    requires res.Final? && Complete(req)
  {
    var s, types := SpendingOf(req), Map(TypeOf, res.inputs);
    && InputsFromRequest(req, res.inputs)
    && (forall k :: 0 <= k < |req.inputs| && req.inputs[k].required ==>
                      exists j :: 0 <= j < |res.inputs| && res.inputs[j].index == k)
    && Conserves(res) && Sized(res)
    && res.totalSpent == PaymentsTotal(req.outputs) + res.fee
    && res.fee >= FeeForVbytes(req.feeRate, res.bytes) + req.baseFee
    && ((Delivers(req, res, 0, 0) && res.fee < FeeWithChange(types, s) + DustAmount(req.changeType))
        || (exists change: nat :: ChangeAccount(req, res, change)))
  }

  /** The change output: one, not dust, and the fee is exactly the one for the larger transaction. */
  ghost predicate ChangeAccount(req: Request, res: ComposeResult, change: nat)
    requires res.Final? && Complete(req)
  {
    var s, types := SpendingOf(req), Map(TypeOf, res.inputs);
    && change >= DustAmount(req.changeType)
    && Delivers(req, res, 0, change)
    && res.fee == FeeWithChange(types, s)
  }

  // ----- totals -----

  lemma {:induction false} AmountsAsTotal(coins: seq<Coin>)
    ensures Amounts(coins) == Sum(Map(CoinAmount, coins))
  {
    if coins != [] {
      AmountsAsTotal(coins[..|coins| - 1]);
      assert Map(CoinAmount, coins)[..|coins| - 1] == Map(CoinAmount, coins[..|coins| - 1]);
    }
  }

  lemma InputsOfCoins(req: Request, chosen: seq<Coin>)
    requires FromRequest(req, chosen) && InRange(req, Indices(chosen))
    ensures var ins := ComposedInputs(req, Indices(chosen));
            Sum(Map(Incoming, ins)) == Amounts(chosen) && Map(TypeOf, ins) == Types(chosen)
  {
    var ins := ComposedInputs(req, Indices(chosen));
    AmountsAsTotal(chosen);
    assert Map(Incoming, ins) == Map(CoinAmount, chosen);
  }

  function MaxCount(outputs: seq<ComposeOutput>): nat {
    if outputs == [] then 0 else MaxCount(outputs[..|outputs| - 1]) + if IsMax(outputs[|outputs| - 1]) then 1 else 0
  }

  lemma {:induction false} PaymentTotals(outputs: seq<ComposeOutput>, changeType: ScriptType)
    ensures PaymentsTotal(outputs) == OutputSum(OutputsOf(outputs, changeType))
            == SpecifiedSum(OutputsOf(outputs, changeType))
  {
    hide ScriptTypeFromAddress;
    if outputs != [] {
      var n := |outputs| - 1;
      PaymentTotals(outputs[..n], changeType);
      assert OutputsOf(outputs, changeType)[..n] == OutputsOf(outputs[..n], changeType);
    }
  }

  lemma {:induction false} FilledTotals(outputs: seq<ComposeOutput>, max: nat)
    requires Addressed(outputs)
    ensures Sum(Map(Outgoing, Requested(outputs, max))) == PaymentsTotal(outputs) + MaxCount(outputs) * max
  {
    if outputs != [] {
      var n := |outputs| - 1;
      FilledTotals(outputs[..n], max);
      assert Map(Outgoing, Requested(outputs, max))[..n] == Map(Outgoing, Requested(outputs[..n], max));
      OneMore(MaxCount(outputs[..n]), max);
    }
  }

  lemma OneMore(count: nat, max: nat)
    ensures (count + 1) * max == count * max + max
  {
  }

  lemma OutputsPermuted(req: Request, sel: Selection, res: ComposeResult)
    requires Complete(req) && !sel.InsufficientFunds? && InRange(req, sel.selected) && Describes(req, sel, res)
    ensures multiset(res.outputs) == multiset(ComposedOutputs(req, sel))
  {
    hide ComposedOutputs, ComposedInputs;
    var outs := ComposedOutputs(req, sel);
    if outs == [] {
      assert |multiset(res.outputsPermutation)| == 0;
    } else {
      var pick := (k: nat) => if k < |outs| then outs[k] else outs[0];
      MapPermutes(pick, res.outputsPermutation, Identity(|outs|));
      assert Map(pick, Identity(|outs|)) == outs;
      assert Map(pick, res.outputsPermutation) == res.outputs;
    }
  }

  lemma InputsSound(req: Request, chosen: seq<Coin>, inputs: seq<ComposedInput>)
    requires FromRequest(req, chosen) && Distinct(chosen) && InRange(req, Indices(chosen))
    requires multiset(inputs) == multiset(ComposedInputs(req, Indices(chosen)))
    ensures InputsFromRequest(req, inputs)
  {
    var ins := ComposedInputs(req, Indices(chosen));
    assert Distinct(ins) by {
      forall i, j | 0 <= i < j < |ins| ensures ins[i] != ins[j] {
        assert chosen[i] != chosen[j];
      }
    }
    DistinctPart(inputs, ins);
    forall k | 0 <= k < |inputs|
      ensures inputs[k].index < |req.inputs| && inputs[k] == ComposedAt(req, inputs[k].index)
    {
      assert inputs[k] in multiset(ins);
    }
  }

  lemma RequiredSelected(req: Request, chosen: seq<Coin>, inputs: seq<ComposedInput>, k: nat)
    requires FromRequest(req, chosen) && InRange(req, Indices(chosen))
    requires multiset(RequiredOf(SortedCoins(req))) <= multiset(chosen)
    requires multiset(inputs) == multiset(ComposedInputs(req, Indices(chosen)))
    requires k < |req.inputs| && req.inputs[k].required
    ensures ComposedAt(req, k) in inputs
  {
    hide SortedCoins, RequiredOf;
    var c := CoinAt(req, k);
    SortedCoinsPermute(req);
    assert CoinsOf(req)[k] == c;
    assert c in multiset(CoinsOf(req));
    RequiredCounts(SortedCoins(req), c);
    assert c in multiset(chosen);
    var i :| 0 <= i < |chosen| && chosen[i] == c;
    var ins := ComposedInputs(req, Indices(chosen));
    assert ins[i] == ComposedAt(req, k);
    assert ins[i] in multiset(ins);
    assert ins[i] in multiset(inputs);
  }

  /** Value in, value out, fee and change of the finished transaction. */
  lemma MoneyAccount(req: Request, chosen: seq<Coin>, res: ComposeResult)
    requires Complete(req) && !WantsMax(req) && FromRequest(req, chosen) && InRange(req, Indices(chosen))
    requires Pays(chosen, SpendingOf(req))
    requires Describes(req, Report(chosen, FinalizeCoins(chosen, SpendingOf(req))), res)
    ensures Conserves(res) && res.totalSpent == PaymentsTotal(req.outputs) + res.fee
    ensures Sum(Map(Outgoing, res.outputs))
            == PaymentsTotal(req.outputs) + FinalizeCoins(chosen, SpendingOf(req)).changeAmount
    ensures multiset(Map(TypeOf, res.inputs)) == multiset(Types(chosen))
  {
    hide Finalize, TransactionWeight, CalculateFee, DustAmount, Price, FeeWithChange;
    var s := SpendingOf(req);
    var f := FinalizeCoins(chosen, s);
    var sel := Report(chosen, f);
    PaymentTotals(req.outputs, req.changeType);
    OutputsPermuted(req, sel, res);
    TotalPermutes(Outgoing, res.outputs, ComposedOutputs(req, sel));
    OutgoingTotal(req, sel);
    var ins := ComposedInputs(req, Indices(chosen));
    InputsOfCoins(req, chosen);
    TotalPermutes(Incoming, res.inputs, ins);
    MapPermutes(TypeOf, res.inputs, ins);
  }

  lemma OutgoingTotal(req: Request, sel: Selection)
    requires Complete(req) && sel.Success? && (!sel.hasChange ==> sel.changeAmount == 0)
    ensures Sum(Map(Outgoing, ComposedOutputs(req, sel))) == PaymentsTotal(req.outputs) + sel.changeAmount
  {
    hide PaymentsTotal, Requested, MaxCount;
    FilledTotals(req.outputs, 0);
    var base := Requested(req.outputs, 0);
    assert MaxCount(req.outputs) * 0 == 0;
    hide Sum;
    if sel.hasChange && sel.changeAmount > 0 {
      var c := ChangeOut("", "", sel.changeAmount, req.changeType);
      assert ComposedOutputs(req, sel) == base + [c];
      assert Map(Outgoing, base + [c]) == Map(Outgoing, base) + [sel.changeAmount];
      SumAppend(Map(Outgoing, base), sel.changeAmount);
    } else {
      assert ComposedOutputs(req, sel) == base;
    }
  }

  lemma OutputsWeigh(req: Request, sel: Selection)
    requires Complete(req) && !sel.InsufficientFunds?
    requires sel.Success? && sel.hasChange ==> sel.changeAmount > 0
    ensures var ws := OutputWeights(SpendingOf(req).outputs);
            Map(WeightOf, ComposedOutputs(req, sel))
            == if sel.Success? && sel.hasChange then ws + [OutputWeight(req.changeType)] else ws
  {
    hide ScriptTypeFromAddress;
    var max := if sel.SendMax? then sel.maxAmount else 0;
    forall i | 0 <= i < |req.outputs|
      ensures WeightOf(Requested(req.outputs, max)[i]) == OutputWeights(SpendingOf(req).outputs)[i]
    {
    }
  }

  /** The size of a result is that of the selection it describes. */
  lemma SizeOf(req: Request, sel: Selection, types: seq<ScriptType>, res: ComposeResult)
    requires Complete(req) && !sel.InsufficientFunds? && InRange(req, sel.selected) && Describes(req, sel, res)
    requires sel.Success? && sel.hasChange ==> sel.changeAmount > 0
    requires multiset(Map(TypeOf, res.inputs)) == multiset(types)
    requires var ws := OutputWeights(SpendingOf(req).outputs);
             var withChange := ws + [OutputWeight(req.changeType)];
             sel.weight == TransactionWeight(types, if sel.Success? && sel.hasChange then withChange else ws)
    ensures Sized(res)
  {
    hide TransactionWeight, OutputsOf, ComposedOutputs, ComposedInputs, OutputWeights, WeightOf;
    OutputsPermuted(req, sel, res);
    MapPermutes(WeightOf, res.outputs, ComposedOutputs(req, sel));
    OutputsWeigh(req, sel);
    WeightPermutes(Map(TypeOf, res.inputs), types, Map(WeightOf, res.outputs));
    OutputsPermuteWeight(types, Map(WeightOf, res.outputs), Map(WeightOf, ComposedOutputs(req, sel)));
  }

  lemma FeeAccount(req: Request, chosen: seq<Coin>, res: ComposeResult)
    requires Complete(req) && !WantsMax(req) && InRange(req, Indices(chosen))
    requires Pays(chosen, SpendingOf(req))
    requires Describes(req, Report(chosen, FinalizeCoins(chosen, SpendingOf(req))), res)
    requires multiset(Map(TypeOf, res.inputs)) == multiset(Types(chosen))
    ensures var s, types := SpendingOf(req), Map(TypeOf, res.inputs);
            && res.fee >= FeeForVbytes(req.feeRate, res.bytes) + req.baseFee
            && Sized(res)
            && ((Delivers(req, res, 0, 0) && res.fee < FeeWithChange(types, s) + DustAmount(req.changeType))
                || (exists change: nat :: ChangeAccount(req, res, change)))
  {
    hide Finalize, TransactionWeight, FeeForVbytes, Price, OutputsOf, Delivers;
    var s, types := SpendingOf(req), Map(TypeOf, res.inputs);
    var f := FinalizeCoins(chosen, s);
    DescribedDelivers(req, Report(chosen, f), res);
    SizeOf(req, Report(chosen, f), Types(chosen), res);
    WeightPermutes(types, Types(chosen), OutputWeights(s.outputs));
    WeightPermutes(types, Types(chosen), OutputWeights(s.outputs) + [OutputWeight(s.changeType)]);
    DustIsDefault(req.changeType);
    if f.hasChange {
      assert ChangeAccount(req, res, f.changeAmount);
    }
  }

  /** No script type costs more than the default threshold to spend at the dust relay rate. */
  lemma DustIsDefault(t: ScriptType)
    ensures DustAmount(t) == DEFAULT_DUST_THRESHOLD
  {
  }

  /** Every final result of a fixed payment is sound: the chosen inputs are distinct coins of the request and
      include every required one; their amounts equal payments plus change plus fee; the fee covers the reported
      size and the base fee; change is absent or at least the dust amount; and without change the fee stays below
      the fee with change plus dust. */
  lemma FixedPaymentIsSound(req: Request, res: ComposeResult)
    requires Complete(req) && !WantsMax(req) && !Chosen(req).InsufficientFunds? && InRange(req, Chosen(req).selected)
    requires Describes(req, Chosen(req), res)
    ensures Sound(req, res)
  {
    hide Chosen, FinalizeCoins, Pays, SortedCoins, RequiredOf, ComposedInputs, Describes, Conserves, InputsFromRequest,
         TransactionWeight, FeeForVbytes, DustAmount, FeeWithChange, ChangeAccount, Requested, PaymentsTotal;
    var chosen := CoinsOfPayment(req);
    InputsOfDescribed(req, Chosen(req), res);
    InputsSound(req, chosen, res.inputs);
    forall k | 0 <= k < |req.inputs| && req.inputs[k].required
      ensures exists j :: 0 <= j < |res.inputs| && res.inputs[j].index == k
    {
      RequiredSelected(req, chosen, res.inputs, k);
    }
    MoneyAccount(req, chosen, res);
    FeeAccount(req, chosen, res);
  }

  lemma InputsOfDescribed(req: Request, sel: Selection, res: ComposeResult)
    requires Complete(req) && !sel.InsufficientFunds? && InRange(req, sel.selected) && Describes(req, sel, res)
    ensures res.Final? && multiset(res.inputs) == multiset(ComposedInputs(req, sel.selected))
  {
  }

  // ----- send-max -----

  lemma MaxAppears(outputs: seq<ComposeOutput>, i: nat)
    requires i < |outputs| && IsMax(outputs[i])
    ensures MaxCount(outputs) >= 1
  {
    var n := |outputs| - 1;
    if i < n {
      MaxAppears(outputs[..n], i);
    }
  }

  lemma Multiples(count: nat, max: nat)
    requires count >= 1 && max > 0
    ensures count * max >= max && (count * max == max <==> count == 1)
  {
    if count > 1 {
      assert count * max >= 2 * max;
    }
  }

  lemma SplitAccount(req: Request) returns (chosen: seq<Coin>)
    requires WantsMax(req) && !Chosen(req).InsufficientFunds?
    ensures FromRequest(req, chosen) && Distinct(chosen) && InRange(req, Indices(chosen))
    ensures var sel := Chosen(req);
            && sel.SendMax? && sel.selected == Indices(chosen)
            && Amounts(chosen) == PaymentsTotal(req.outputs) + sel.maxAmount + sel.fee
            && sel.maxAmount >= DustAmount(req.changeType)
            && sel.weight == TransactionWeight(Types(chosen), OutputWeights(SpendingOf(req).outputs))
            && sel.fee == CalculateFee(req.feeRate, sel.weight) + req.baseFee
  {
    hide SortedCoins, TransactionWeight, CalculateFee, DustAmount;
    var h := HistoryOf(req);
    chosen := Mature(SortedCoins(req), h.confirmations, h.coinbase);
    MatureIsPart(SortedCoins(req), h.confirmations, h.coinbase);
    PartOfRequest(req, chosen);
    PaymentTotals(req.outputs, req.changeType);
  }

  /** The account of a send-max payment: each output that asks for the maximum gets what is left of the inputs after the
      payments and the fee, the reported total is that and the fee, and the fee is the one for the reported size, which
      is the size of these inputs and outputs. */
  ghost predicate Emptied(req: Request, res: ComposeResult)
    requires res.Final? && Complete(req)
  {
    var max := res.totalSpent - res.fee;
    && InputsFromRequest(req, res.inputs)
    && max >= 546 && Delivers(req, res, max, 0)
    && Sum(Map(Incoming, res.inputs)) == PaymentsTotal(req.outputs) + max + res.fee
    && Sized(res) && res.fee == FeeForVbytes(req.feeRate, res.bytes) + req.baseFee
  }

  /** An output without an address is priced as one to an address of the change type. */
  lemma PricedAsChange(a: string, amount: nat, t: ScriptType)
    ensures OutputOf(PaymentNoAddress(amount), ScriptTypeFromAddress(a)) == OutputOf(Payment(a, amount), t)
    ensures OutputOf(PayMaxNoAddress, ScriptTypeFromAddress(a)) == OutputOf(PayMax(a), t)
  {
  }

  lemma SendMaxEmpties(req: Request, res: ComposeResult)
    requires Complete(req) && WantsMax(req) && !Chosen(req).InsufficientFunds? && InRange(req, Chosen(req).selected)
    requires Describes(req, Chosen(req), res)
    ensures Emptied(req, res)
  {
    hide Chosen, FeeForVbytes, TransactionWeight, DustAmount, SortedCoins, ComposedInputs, PaymentsTotal, Requested,
         InputsFromRequest, Delivers, OutputsOf;
    var chosen := SplitAccount(req);
    var sel := Chosen(req);
    InputsOfDescribed(req, sel, res);
    InputsSound(req, chosen, res.inputs);
    InputsOfCoins(req, chosen);
    TotalPermutes(Incoming, res.inputs, ComposedInputs(req, sel.selected));
    MapPermutes(TypeOf, res.inputs, ComposedInputs(req, sel.selected));
    SizeOf(req, sel, Types(chosen), res);
    DescribedDelivers(req, sel, res);
    DustIsDefault(req.changeType);
  }

  /** Send-max is refused exactly when no coin stands at a mature position, or the coins that do bring less than the
      payments, the fee for all of them, the base fee and the dust limit. */
  lemma SendMaxRefusedExactly(req: Request)
    requires WantsMax(req)
    ensures var taken, s := MatureOf(req), SpendingOf(req);
            Chosen(req).InsufficientFunds?
            <==> || taken == []
                 || Amounts(taken) < PaymentsTotal(req.outputs)
                    + CalculateFee(req.feeRate, TransactionWeight(Types(taken), OutputWeights(s.outputs)))
                    + req.baseFee + 546
  {
    hide SortedCoins, TransactionWeight, CalculateFee, Mature, Split;
    var h := HistoryOf(req);
    SplitExactly(SortedCoins(req), SpendingOf(req), h.confirmations, h.coinbase);
    PaymentTotals(req.outputs, req.changeType);
    DustIsDefault(req.changeType);
  }

  /** Send-max conserves value exactly when one output asks for the maximum: every further one is filled with the
      same amount again.  The reported total is what leaves the wallet exactly when there is no other payment. */
  lemma SendMaxConservesExactly(req: Request, res: ComposeResult)
    requires Complete(req) && WantsMax(req) && !Chosen(req).InsufficientFunds? && InRange(req, Chosen(req).selected)
    requires Describes(req, Chosen(req), res)
    ensures Emptied(req, res)
    ensures Conserves(res) <==> MaxCount(req.outputs) == 1
    ensures res.totalSpent == Sum(Map(Outgoing, res.outputs)) + res.fee
            <==> MaxCount(req.outputs) == 1 && PaymentsTotal(req.outputs) == 0
  {
    hide Chosen, FeeForVbytes, DustAmount, SortedCoins, ComposedInputs, PaymentsTotal, MaxCount, Requested,
         Emptied, TransactionWeight;
    SendMaxEmpties(req, res);
    var chosen := SplitAccount(req);
    var sel := Chosen(req);
    InputsOfDescribed(req, sel, res);
    InputsOfCoins(req, chosen);
    TotalPermutes(Incoming, res.inputs, ComposedInputs(req, sel.selected));
    OutputsPermuted(req, sel, res);
    TotalPermutes(Outgoing, res.outputs, ComposedOutputs(req, sel));
    assert ComposedOutputs(req, sel) == Requested(req.outputs, sel.maxAmount);
    FilledTotals(req.outputs, sel.maxAmount);
    var i :| 0 <= i < |req.outputs| && IsMax(req.outputs[i]);
    MaxAppears(req.outputs, i);
    DustIsDefault(req.changeType);
    Multiples(MaxCount(req.outputs), sel.maxAmount);
  }

  /** `compose_tx` from end to end: every final result of a fixed payment is sound, and one of a send-max payment
      conserves value exactly when one output asks for the maximum. */
  method ComposeSoundly(req: Request, scripts: Scripts, rng: Rng) returns (res: ComposeResult)
    requires Fair(rng)
    ensures res.Final? ==> Complete(req) && req.feeRate > 0.0
    ensures res.Final? && !WantsMax(req) ==> Sound(req, res)
    ensures res.Final? && WantsMax(req) ==>
              Emptied(req, res) && (Conserves(res) <==> MaxCount(req.outputs) == 1)
  {
    res := ComposeTx(req, scripts, rng);
    hide Chosen, Describes, Sound, Conserves, Emptied, MaxCount, ComposedOutputs, ComposedInputs, WantsMax, Fair;
    if res.Final? {
      if WantsMax(req) {
        SendMaxConservesExactly(req, res);
      } else {
        FixedPaymentIsSound(req, res);
      }
    }
  }

  // ----- change at whole-number rates -----

  /** Every output `compose_tx` hands to the selectors has a weight that is a multiple of four, so at a whole-number fee
      rate, with native or nested segwit coins, branch-and-bound makes no change. */
  lemma NoChangeInCompose(req: Request, coins: seq<Coin>, rate: nat)
    requires rate >= 1 && req.feeRate == rate as real
    requires forall c :: c in coins ==> c.scriptType.SpendWitness? || c.scriptType.SpendP2SHWitness?
    requires ExactMatch(coins, SpendingOf(req)).Some?
    ensures !ExactMatch(coins, SpendingOf(req)).value.hasChange
  {
    hide ExactMatch, ScriptTypeFromAddress;
    forall o | o in SpendingOf(req).outputs ensures o.weight % 4 == 0 {
      var i :| 0 <= i < |req.outputs| && SpendingOf(req).outputs[i] == o;
      assert o == OutputOf(req.outputs[i], req.changeType);
    }
    NoChangeAtWholeRates(coins, SpendingOf(req), rate);
  }

  // ----- confirmations after the sort -----

  ghost predicate InPlace(coins: seq<Coin>) {
    forall i :: 0 <= i < |coins| ==> coins[i].index == i
  }

  lemma ScoreIsTotal(rate: real)
    ensures TotalPreorder(ByScore(rate))
  {
    hide Score;
  }

  /** Unless the order is kept, the selectors see the coins by falling effective value, earlier coins first among
      equals. */
  lemma BestCoinsFirst(req: Request)
    requires !req.strategy.KeepOrder?
    ensures var coins := SortedCoins(req);
            && multiset(coins) == multiset(CoinsOf(req))
            && forall i, j :: 0 <= i < j < |coins| ==>
                                var a := coins[i].amount - InputFee(req.feeRate, coins[i]);
                                var b := coins[j].amount - InputFee(req.feeRate, coins[j]);
                                a > b || (a == b && coins[i].index <= coins[j].index)
  {
    hide Score, Sort, InputFee;
    var le := ByScore(req.feeRate);
    ScoreIsTotal(req.feeRate);
    SortSorts(le, CoinsOf(req));
    SortPermutes(le, CoinsOf(req));
    var coins := SortedCoins(req);
    assert forall i, j :: 0 <= i < j < |coins| ==> le(coins[i], coins[j]);
    forall i | 0 <= i < |coins|
      ensures Score(req.feeRate, coins[i]) == coins[i].amount - InputFee(req.feeRate, coins[i])
    {
      assert coins[i] in multiset(CoinsOf(req));
      ScoreOfCoin(req, coins[i]);
    }
  }

  lemma ScoreOfCoin(req: Request, c: Coin)
    requires c in CoinsOf(req)
    ensures Score(req.feeRate, c) == c.amount - InputFee(req.feeRate, c)
  {
  }

  /** The lookup by position agrees with the lookup by index exactly when the order was kept or the request
      already lists its coins by falling effective value. */
  lemma InPlaceExactly(req: Request)
    ensures InPlace(SortedCoins(req))
            <==> req.strategy.KeepOrder? || StableSort.Sorted(ByScore(req.feeRate), CoinsOf(req))
  {
    hide Score, Sort;
    var coins, le := CoinsOf(req), ByScore(req.feeRate);
    if !req.strategy.KeepOrder? {
      ScoreIsTotal(req.feeRate);
      SortSorts(le, coins);
      LengthKept(le, coins);
      SortPermutes(le, coins);
      if InPlace(SortedCoins(req)) {
        var sorted := Sort(le, coins);
        forall i | 0 <= i < |coins| ensures sorted[i] == coins[i] {
          assert sorted[i] in multiset(coins);
        }
        assert sorted == coins;
      } else if StableSort.Sorted(le, coins) {
        SortedIsFixed(le, coins);
        assert false;
      }
    }
  }

  predicate Immature(u: ComposeInput) {
    u.coinbase && u.confirmations < COINBASE_MIN_CONFIRMATIONS
  }

  lemma SortedLength(req: Request)
    ensures |SortedCoins(req)| == |req.inputs|
  {
    hide SortedCoins;
    SortedCoinsPermute(req);
    assert |multiset(SortedCoins(req))| == |multiset(CoinsOf(req))|;
  }

  lemma TakenByIndex(req: Request, taken: seq<Coin>, i: nat)
    requires FromRequest(req, taken) && i < |req.inputs|
    ensures i in Indices(taken) <==> CoinAt(req, i) in taken
  {
    if i in Indices(taken) {
      var k :| 0 <= k < |taken| && Indices(taken)[k] == i;
      assert taken[k] == CoinAt(req, i);
    }
    if CoinAt(req, i) in taken {
      var k :| 0 <= k < |taken| && taken[k] == CoinAt(req, i);
      assert Indices(taken)[k] == i;
    }
  }

  /** Send-max spends exactly the inputs whose coin stands, after the sort, where the request lists an input that is not
      immature coinbase; being required does not help.  In place these are the inputs that are not immature. */
  lemma SendMaxTakesTheMature(req: Request, i: nat)
    requires WantsMax(req) && Chosen(req).SendMax? && i < |req.inputs|
    ensures |SortedCoins(req)| == |req.inputs|
    ensures i in Chosen(req).selected
            <==> exists p :: 0 <= p < |req.inputs| && SortedCoins(req)[p].index == i && !Immature(req.inputs[p])
    ensures InPlace(SortedCoins(req)) ==> (i in Chosen(req).selected <==> !Immature(req.inputs[i]))
  {
    hide SortedCoins, TransactionWeight, CalculateFee, DustAmount, Mature;
    var coins := SortedCoins(req);
    var taken := MatureOf(req);
    assert Chosen(req).selected == Indices(taken);
    SortedLength(req);
    TakenAtMature(req, i);
    TakenByIndex(req, taken, i);
    if InPlace(coins) {
      assert coins[i].index == i;
    }
  }

  function MatureOf(req: Request): seq<Coin> {
    Mature(SortedCoins(req), HistoryOf(req).confirmations, HistoryOf(req).coinbase)
  }

  lemma TakenAtMature(req: Request, i: nat)
    requires i < |req.inputs|
    ensures FromRequest(req, MatureOf(req)) && |SortedCoins(req)| == |req.inputs|
    ensures CoinAt(req, i) in MatureOf(req)
            <==> exists p :: 0 <= p < |req.inputs| && SortedCoins(req)[p].index == i && !Immature(req.inputs[p])
  {
    hide SortedCoins, Mature;
    var h, coins, c := HistoryOf(req), SortedCoins(req), CoinAt(req, i);
    SortedLength(req);
    MatureIsPart(coins, h.confirmations, h.coinbase);
    PartOfRequest(req, MatureOf(req));
    SortedCoinsPermute(req);
    PartOfRequest(req, coins);
    MatureExactly(coins, h.confirmations, h.coinbase, c);
    assert forall p :: 0 <= p < |coins| ==> (coins[p] == c <==> coins[p].index == i);
    assert forall p :: 0 <= p < |coins| ==> (MatureAt(p, h.confirmations, h.coinbase) <==> !Immature(req.inputs[p]));
  }

  predicate MeetsTrial(u: ComposeInput, f: ConfFilter) {
    u.confirmations >= if u.own then f.ownMin else f.otherMin
  }

  /** Which trial of a fixed payment is the first to succeed. */
  ghost predicate DecidedBy(req: Request, j: nat) {
    FirstToSucceed(SortedCoins(req), SpendingOf(req), HistoryOf(req), Trials(1, 6), j)
  }

  /** What `try_confirmed` and `split` are for: a fixed payment spends, besides required inputs, only mature ones with
      the confirmations of the strictest trial that succeeds; send-max spends only mature inputs. */
  ghost predicate SpendsConfirmed(req: Request) {
    !Chosen(req).InsufficientFunds? ==>
      forall i :: i in Chosen(req).selected && i < |req.inputs| && (req.inputs[i].required ==> WantsMax(req)) ==>
                    && !Immature(req.inputs[i])
                    && (!WantsMax(req) ==>
                        forall j: nat :: DecidedBy(req, j) ==> MeetsTrial(req.inputs[i], Trials(1, 6)[j]))
  }

  /** A fixed payment is decided by the strictest trial that succeeds, and there is one unless every trial fails. */
  lemma DecidedExactly(req: Request)
    requires !WantsMax(req)
    ensures forall j: nat :: DecidedBy(req, j) ==>
                          Chosen(req) == SelectFiltered(Filtered(SortedCoins(req), HistoryOf(req), Trials(1, 6)[j]),
                                                        SpendingOf(req), HistoryOf(req))
    ensures Chosen(req).InsufficientFunds? <==> !exists j: nat :: DecidedBy(req, j)
  {
    hide TryFrom, TryEvery, SortedCoins, SelectFiltered, Filtered;
    var coins, s, h, trials := SortedCoins(req), SpendingOf(req), HistoryOf(req), Trials(1, 6);
    TryConfirmedIsTryEvery(coins, s, h, 1, 6);
    forall j: nat | DecidedBy(req, j) ensures Chosen(req) == SelectFiltered(Filtered(coins, h, trials[j]), s, h) {
      FirstSuccess(coins, s, h, trials, j);
    }
    NoSuccess(coins, s, h, trials);
    if !Chosen(req).InsufficientFunds? {
      var j := Strictest(coins, s, h, trials);
      assert DecidedBy(req, j);
    }
  }

  lemma Strictest(coins: seq<Coin>, s: Spending, h: History, trials: seq<ConfFilter>) returns (j: nat)
    requires !TryEvery(coins, s, h, trials).InsufficientFunds?
    ensures FirstToSucceed(coins, s, h, trials, j)
  {
    hide TryEvery, SelectFiltered, Filtered;
    NoSuccess(coins, s, h, trials);
    j := 0;
    while SelectFiltered(Filtered(coins, h, trials[j]), s, h).InsufficientFunds?
      invariant j < |trials|
      invariant forall i :: 0 <= i < j ==> SelectFiltered(Filtered(coins, h, trials[i]), s, h).InsufficientFunds?
      decreases |trials| - j
    {
      j := j + 1;
    }
  }

  /** When the coins are in place, a fixed payment spends only required and confirmed inputs. */
  lemma ConfirmedWhenInPlace(req: Request)
    requires !WantsMax(req) && InPlace(SortedCoins(req))
    ensures SpendsConfirmed(req)
  {
    hide TryFrom, SortedCoins, SelectFiltered, Filtered, FinalizeCoins, RequiredOf, Pays, Chosen;
    MaxMatches(req);
    DecidedExactly(req);
    if !Chosen(req).InsufficientFunds? {
      var j: nat :| DecidedBy(req, j);
      forall i, k: nat | i in Chosen(req).selected && i < |req.inputs| && !req.inputs[i].required && DecidedBy(req, k)
        ensures !Immature(req.inputs[i]) && MeetsTrial(req.inputs[i], Trials(1, 6)[k])
      {
        var f := Trials(1, 6)[k];
        var chosen := ConfirmationSafety(SortedCoins(req), SpendingOf(req), HistoryOf(req), f);
        PartOfRequest(req, chosen);
        var p :| 0 <= p < |chosen| && Indices(chosen)[p] == i;
        assert chosen[p] in chosen && chosen[p] == CoinAt(req, i);
      }
    }
  }

  /** Send-max on coins in place spends no immature input. */
  lemma MatureWhenInPlace(req: Request)
    requires WantsMax(req) && InPlace(SortedCoins(req))
    ensures SpendsConfirmed(req)
  {
    hide SortedCoins, Chosen;
    if !Chosen(req).InsufficientFunds? {
      var chosen := SplitAccount(req);
      forall i | i in Chosen(req).selected && i < |req.inputs| ensures !Immature(req.inputs[i]) {
        SendMaxTakesTheMature(req, i);
      }
    }
  }
}
