/** The compose engine (compose/mod.rs): from a request to a transaction with chosen inputs, change and order. */
module Compose {
  import opened Prelude
  import opened Weight
  import opened CoinSelection
  import opened Accumulative
  import opened CoinSelect
  import opened TryConfirmed
  import opened StableSort
  import opened Permutation
  import opened SortTransaction

  datatype ComposeInput = ComposeInput(txid: string, vout: nat, amount: nat, address: string, path: string,
                                       confirmations: nat, coinbase: bool, own: bool, required: bool,
                                       scriptType: ScriptType)

  datatype ComposeOutput =
    | Payment(address: string, amount: nat)
    | PaymentNoAddress(amount: nat)
    | PayMax(address: string)
    | PayMaxNoAddress
    | OpReturn(dataHex: string)

  datatype Request = Request(inputs: seq<ComposeInput>, outputs: seq<ComposeOutput>, feeRate: real, baseFee: nat,
                             changeType: ScriptType, strategy: SortingStrategy)

  datatype ComposedInput = ComposedInput(index: nat, txid: string, vout: nat, amount: nat, address: string,
                                         path: string, scriptType: ScriptType)

  datatype ComposedOutput =
    | PaymentOut(address: string, amount: nat)
    | ChangeOut(address: string, path: string, amount: nat, scriptType: ScriptType)
    | OpReturnOut(dataHex: string)

  datatype ComposeError = NotEnoughFunds | MissingUtxos | MissingOutputs | IncorrectFeeRate

  datatype ComposeResult =
    | Final(totalSpent: nat, fee: nat, feePerByte: real, bytes: nat, inputs: seq<ComposedInput>,
            outputs: seq<ComposedOutput>, outputsPermutation: seq<nat>)
    | NonFinal(max: Option<nat>, totalSpent: nat, fee: nat, feePerByte: real, bytes: nat)
    | Error(error: ComposeError)

  // ----- the request as the selectors see it -----

  predicate StartsWith(s: string, prefix: string) {
    |prefix| <= |s| && forall i :: 0 <= i < |prefix| ==> LowerChar(s[i]) == prefix[i]
  }

  function ScriptTypeFromAddress(a: string): ScriptType {
    if StartsWith(a, "bc1q") || StartsWith(a, "tb1q") || StartsWith(a, "bcrt1q") then SpendWitness
    else if StartsWith(a, "bc1p") || StartsWith(a, "tb1p") || StartsWith(a, "bcrt1p") then SpendTaproot
    else if StartsWith(a, "3") || StartsWith(a, "2") then SpendP2SHWitness
    else SpendAddress
  }

  function CoinAt(req: Request, i: nat): Coin
    requires i < |req.inputs|
  {
    var u := req.inputs[i];
    Coin(i, u.amount, u.scriptType, u.required, InputWeight(u.scriptType))
  }

  function CoinsOf(req: Request): seq<Coin> {
    seq(|req.inputs|, i requires 0 <= i < |req.inputs| => CoinAt(req, i))
  }

  function Score(rate: real, c: Coin): int {
    c.amount - CalculateFee(rate, c.weight)
  }

  function ByScore(rate: real): (Coin, Coin) -> bool {
    (a: Coin, b: Coin) => Score(rate, a) > Score(rate, b) || (Score(rate, a) == Score(rate, b) && a.index <= b.index)
  }

  /** Largest effective value first, except when the caller asked to keep the order. */
  function SortedCoins(req: Request): seq<Coin> {
    if req.strategy.KeepOrder? then CoinsOf(req) else Sort(ByScore(req.feeRate), CoinsOf(req))
  }

  function OutputOf(o: ComposeOutput, changeType: ScriptType): Output {
    match o
    case Payment(address, amount) => Output(amount, OutputWeight(ScriptTypeFromAddress(address)), false)
    case PaymentNoAddress(amount) => Output(amount, OutputWeight(changeType), false)
    case PayMax(address) => Output(0, OutputWeight(ScriptTypeFromAddress(address)), true)
    case PayMaxNoAddress => Output(0, OutputWeight(changeType), true)
    case OpReturn(dataHex) => Output(0, OpReturnOutputWeight(|dataHex| / 2), false)
  }

  lemma Differs(a: string, p: string, i: nat)
    requires i < |a| && i < |p| && LowerChar(a[i]) != p[i]
    ensures !StartsWith(a, p)
  {
  }

  lemma NotSegwit(a: string)
    requires a != [] && LowerChar(a[0]) != 'b' && LowerChar(a[0]) != 't'
    ensures ScriptTypeFromAddress(a) == if a[0] == '3' || a[0] == '2' then SpendP2SHWitness else SpendAddress
  {
    Differs(a, "bc1q", 0);
    Differs(a, "tb1q", 0);
    Differs(a, "bcrt1q", 0);
    Differs(a, "bc1p", 0);
    Differs(a, "tb1p", 0);
    Differs(a, "bcrt1p", 0);
    hide StartsWith;
    assert StartsWith(a, "3") <==> a[0] == '3' by { OneCharacter(a, '3'); }
    assert StartsWith(a, "2") <==> a[0] == '2' by { OneCharacter(a, '2'); }
  }

  lemma OneCharacter(a: string, c: char)
    requires a != [] && '0' <= c <= '9'
    ensures StartsWith(a, [c]) <==> a[0] == c
  {
  }

  lemma SegwitAddress(a: string, prefix: string, version: char)
    requires prefix in ["bc1", "tb1", "bcrt1"] && (version == 'q' || version == 'p')
    requires StartsWith(a, prefix + [version])
    ensures ScriptTypeFromAddress(a) == if version == 'q' then SpendWitness else SpendTaproot
  {
    if version == 'p' {
      var n := |prefix|;
      assert (prefix + [version])[n] == 'p' && forall i :: 0 <= i < n ==> (prefix + [version])[i] == prefix[i];
      assert LowerChar(a[n]) == 'p' && forall i :: 0 <= i < n ==> LowerChar(a[i]) == prefix[i];
      Differs(a, "bc1q", if prefix == "tb1" then 0 else if prefix == "bc1" then 3 else 2);
      Differs(a, "tb1q", if prefix == "tb1" then 3 else 0);
      Differs(a, "bcrt1q", if prefix == "tb1" then 0 else if prefix == "bc1" then 2 else 5);
    }
  }

  /** What an output weighs by how its address begins: segwit of version 0 and taproot on the three networks, in either
      case, then script hashes, and everything else as a key hash. */
  lemma WeightByAddress(a: string, prefix: string)
    ensures prefix in ["bc1", "tb1", "bcrt1"] && StartsWith(a, prefix + ['q']) ==>
              OutputWeight(ScriptTypeFromAddress(a)) == 124
    ensures prefix in ["bc1", "tb1", "bcrt1"] && StartsWith(a, prefix + ['p']) ==>
              OutputWeight(ScriptTypeFromAddress(a)) == 172
    ensures a != [] && LowerChar(a[0]) != 'b' && LowerChar(a[0]) != 't' ==>
              OutputWeight(ScriptTypeFromAddress(a)) == if a[0] == '3' || a[0] == '2' then 128 else 136
  {
    hide StartsWith, ScriptTypeFromAddress;
    if prefix in ["bc1", "tb1", "bcrt1"] && StartsWith(a, prefix + ['q']) {
      SegwitAddress(a, prefix, 'q');
    }
    if prefix in ["bc1", "tb1", "bcrt1"] && StartsWith(a, prefix + ['p']) {
      SegwitAddress(a, prefix, 'p');
    }
    if a != [] && LowerChar(a[0]) != 'b' && LowerChar(a[0]) != 't' {
      NotSegwit(a);
    }
  }

  function OutputsOf(outputs: seq<ComposeOutput>, changeType: ScriptType): seq<Output> {
    seq(|outputs|, i requires 0 <= i < |outputs| => OutputOf(outputs[i], changeType))
  }

  function SpendingOf(req: Request): Spending {
    Spending(OutputsOf(req.outputs, req.changeType), req.feeRate, req.baseFee, req.changeType)
  }

  function HistoryOf(req: Request): History {
    History(seq(|req.inputs|, i requires 0 <= i < |req.inputs| => req.inputs[i].confirmations),
            seq(|req.inputs|, i requires 0 <= i < |req.inputs| => req.inputs[i].own),
            seq(|req.inputs|, i requires 0 <= i < |req.inputs| => req.inputs[i].coinbase))
  }

  predicate IsMax(o: ComposeOutput) {
    o.PayMax? || o.PayMaxNoAddress?
  }

  predicate WantsMax(req: Request) {
    exists i :: 0 <= i < |req.outputs| && IsMax(req.outputs[i])
  }

  predicate Addressed(outputs: seq<ComposeOutput>) {
    forall i :: 0 <= i < |outputs| ==> !outputs[i].PaymentNoAddress? && !outputs[i].PayMaxNoAddress?
  }

  predicate Complete(req: Request) {
    Addressed(req.outputs)
  }

  /** The selection: send-max takes everything at once, other payments relax the confirmations from (1, 6). */
  function Chosen(req: Request): Selection {
    var h := HistoryOf(req);
    if WantsMax(req) then Split(SortedCoins(req), SpendingOf(req), h.confirmations, h.coinbase)
    else TryFrom(SortedCoins(req), SpendingOf(req), h, Trials(1, 6), 0)
  }

  // ----- the transaction -----

  function ComposedAt(req: Request, i: nat): ComposedInput
    requires i < |req.inputs|
  {
    var u := req.inputs[i];
    ComposedInput(i, u.txid, u.vout, u.amount, u.address, u.path, u.scriptType)
  }

  predicate InRange(req: Request, selected: seq<nat>) {
    forall k :: 0 <= k < |selected| ==> selected[k] < |req.inputs|
  }

  function ComposedInputs(req: Request, selected: seq<nat>): seq<ComposedInput>
    requires InRange(req, selected)
  {
    seq(|selected|, k requires 0 <= k < |selected| => ComposedAt(req, selected[k]))
  }

  /** A requested output, with the send-max amount filled in. */
  function Filled(o: ComposeOutput, max: nat): ComposedOutput
    requires !o.PaymentNoAddress? && !o.PayMaxNoAddress?
  {
    match o
    case Payment(address, amount) => PaymentOut(address, amount)
    case PayMax(address) => PaymentOut(address, max)
    case OpReturn(dataHex) => OpReturnOut(dataHex)
  }

  function Requested(outputs: seq<ComposeOutput>, max: nat): seq<ComposedOutput>
    requires Addressed(outputs)
  {
    seq(|outputs|, i requires 0 <= i < |outputs| => Filled(outputs[i], max))
  }

  function ChangeOf(req: Request, sel: Selection): seq<ComposedOutput> {
    if sel.Success? && sel.hasChange && sel.changeAmount > 0
    then [ChangeOut("", "", sel.changeAmount, req.changeType)]
    else []
  }

  function ComposedOutputs(req: Request, sel: Selection): seq<ComposedOutput>
    requires Complete(req)
  {
    Requested(req.outputs, if sel.SendMax? then sel.maxAmount else 0) + ChangeOf(req, sel)
  }

  function PaymentsTotal(outputs: seq<ComposeOutput>): nat {
    if outputs == [] then 0
    else
      var o := outputs[|outputs| - 1];
      PaymentsTotal(outputs[..|outputs| - 1]) + if o.Payment? || o.PaymentNoAddress? then o.amount else 0
  }

  function TotalSpent(req: Request, sel: Selection): nat
    requires !sel.InsufficientFunds?
  {
    if sel.SendMax? then sel.maxAmount + sel.fee else PaymentsTotal(req.outputs) + sel.fee
  }

  function FeePerByte(fee: nat, bytes: nat): (r: real)
    ensures bytes > 0 ==> r * bytes as real == fee as real
  {
    if bytes > 0 then fee as real / bytes as real else 0.0
  }

  /** The keys the sort sees: the script functions stand for the address decoders. */
  datatype Scripts = Scripts(ofAddress: string -> seq<nat>, ofData: string -> seq<nat>)

  function Sortable(o: ComposedOutput, i: nat, scripts: Scripts): (r: SortableOutput)
    ensures r.index == i && (r.isChange <==> o.ChangeOut?)
  {
    match o
    case PaymentOut(address, amount) => SortableOutput(i, amount, scripts.ofAddress(address), false)
    case ChangeOut(address, _, amount, _) => SortableOutput(i, amount, scripts.ofAddress(address), true)
    case OpReturnOut(dataHex) => SortableOutput(i, 0, scripts.ofData(dataHex), false)
  }

  function Outgoing(o: ComposedOutput): nat {
    if o.OpReturnOut? then 0 else o.amount
  }

  /** What `res` says is what the selection `sel` chose, reordered. */
  ghost predicate Describes(req: Request, sel: Selection, res: ComposeResult)
    requires Complete(req) && !sel.InsufficientFunds? && InRange(req, sel.selected)
  {
    var outs := ComposedOutputs(req, sel);
    && res.Final?
    && res.fee == sel.fee && res.bytes == WeightToVbytes(sel.weight) && res.totalSpent == TotalSpent(req, sel)
    && res.feePerByte == FeePerByte(res.fee, res.bytes)
    && multiset(res.inputs) == multiset(ComposedInputs(req, sel.selected))
    && multiset(res.outputsPermutation) == multiset(Identity(|outs|))
    && |res.outputs| == |res.outputsPermutation|
    && (forall k :: 0 <= k < |res.outputs| ==>
          res.outputsPermutation[k] < |outs| && res.outputs[k] == outs[res.outputsPermutation[k]])
  }

  /** The script an output is compared by. */
  function ScriptOf(o: ComposedOutput, scripts: Scripts): seq<nat> {
    if o.OpReturnOut? then scripts.ofData(o.dataHex) else scripts.ofAddress(o.address)
  }

  /** BIP-69: outputs by amount and then by script, inputs by transaction id and then by output number. */
  ghost predicate OutputsOrdered69(outputs: seq<ComposedOutput>, scripts: Scripts) {
    forall i, j :: 0 <= i < j < |outputs| ==>
                     || Outgoing(outputs[i]) < Outgoing(outputs[j])
                     || (Outgoing(outputs[i]) == Outgoing(outputs[j])
                         && Precedes(ScriptOf(outputs[i], scripts), ScriptOf(outputs[j], scripts)))
  }

  ghost predicate InputsOrdered69(inputs: seq<ComposedInput>) {
    forall i, j :: 0 <= i < j < |inputs| ==>
                     if inputs[i].txid == inputs[j].txid then inputs[i].vout <= inputs[j].vout
                     else Precedes(Codes(inputs[i].txid), Codes(inputs[j].txid))
  }

  /** The payments stand in the order of the request, wherever change stands. */
  ghost predicate PaymentsInOrder(req: Request, permutation: seq<nat>) {
    forall i, j :: 0 <= i < j < |permutation| && permutation[i] < |req.outputs| && permutation[j] < |req.outputs| ==>
                     permutation[i] < permutation[j]
  }

  // ----- who is paid -----

  /** The output `r` is what `o` asked for; one that asks for the maximum gets `max`. */
  ghost predicate PaidAs(o: ComposeOutput, r: ComposedOutput, max: nat) {
    match o
    case Payment(address, amount) => r == PaymentOut(address, amount)
    case PayMax(address) => r == PaymentOut(address, max)
    case OpReturn(dataHex) => r == OpReturnOut(dataHex)
    case _ => false
  }

  /** Every output asked for is there once, at the place the permutation names, and besides them at most the change. */
  ghost predicate Delivers(req: Request, res: ComposeResult, max: nat, change: nat)
    requires res.Final?
  {
    && |res.outputs| == |res.outputsPermutation| == |req.outputs| + (if change > 0 then 1 else 0)
    && multiset(res.outputsPermutation) == multiset(Identity(|res.outputs|))
    && forall k :: 0 <= k < |res.outputs| ==>
                     var i := res.outputsPermutation[k];
                     if i < |req.outputs| then PaidAs(req.outputs[i], res.outputs[k], max)
                     else res.outputs[k] == ChangeOut("", "", change, req.changeType)
  }

  lemma DescribedDelivers(req: Request, sel: Selection, res: ComposeResult)
    requires Complete(req) && !sel.InsufficientFunds? && InRange(req, sel.selected) && Describes(req, sel, res)
    ensures Delivers(req, res, if sel.SendMax? then sel.maxAmount else 0,
                     if sel.Success? && sel.hasChange then sel.changeAmount else 0)
    ensures res.bytes > 0 ==> res.feePerByte * res.bytes as real == res.fee as real
  {
    hide ComposedInputs, TotalSpent;
    var outs := ComposedOutputs(req, sel);
    assert |multiset(res.outputsPermutation)| == |multiset(Identity(|outs|))|;
    var max := if sel.SendMax? then sel.maxAmount else 0;
    forall i | 0 <= i < |req.outputs| ensures PaidAs(req.outputs[i], outs[i], max) {
      assert outs[i] == Requested(req.outputs, max)[i];
    }
  }

  // ----- compose_tx -----

  lemma IndexedOutputs(outs: seq<ComposedOutput>, sorted: seq<SortableOutput>, scripts: Scripts)
    requires multiset(sorted) == multiset(SortableOutputs(outs, scripts))
    ensures |sorted| == |outs|
    ensures forall k :: 0 <= k < |sorted| ==>
              sorted[k].index < |outs| && sorted[k] == Sortable(outs[sorted[k].index], sorted[k].index, scripts)
    ensures multiset(Map((o: SortableOutput) => o.index, sorted)) == multiset(Identity(|outs|))
  {
    var all := SortableOutputs(outs, scripts);
    assert |multiset(sorted)| == |multiset(all)|;
    forall k | 0 <= k < |sorted|
      ensures sorted[k].index < |outs| && sorted[k] == Sortable(outs[sorted[k].index], sorted[k].index, scripts)
    {
      assert sorted[k] in multiset(all);
      var i :| 0 <= i < |all| && all[i] == sorted[k];
    }
    var index := (o: SortableOutput) => o.index;
    MapPermutes(index, sorted, all);
    assert Map(index, all) == Identity(|outs|);
  }

  function SortableOutputs(outs: seq<ComposedOutput>, scripts: Scripts): seq<SortableOutput> {
    seq(|outs|, i requires 0 <= i < |outs| => Sortable(outs[i], i, scripts))
  }

  function SortableInputs(ins: seq<ComposedInput>): seq<SortableInput> {
    seq(|ins|, i requires 0 <= i < |ins| => SortableInput(i, ins[i].txid, ins[i].vout))
  }

  lemma IndexedInputs(ins: seq<ComposedInput>, sorted: seq<SortableInput>)
    requires multiset(sorted) == multiset(SortableInputs(ins))
    ensures forall k :: 0 <= k < |sorted| ==> sorted[k].index < |ins|
    ensures multiset(InputsBack(ins, sorted)) == multiset(ins)
  {
    var all := SortableInputs(ins);
    assert |multiset(sorted)| == |multiset(all)|;
    forall k | 0 <= k < |sorted| ensures sorted[k].index < |ins| {
      assert sorted[k] in multiset(all);
    }
    if ins != [] {
      var back := (x: SortableInput) => if x.index < |ins| then ins[x.index] else ins[0];
      MapPermutes(back, sorted, all);
      assert Map(back, all) == ins;
      assert Map(back, sorted) == InputsBack(ins, sorted);
    }
  }

  function InputsBack(ins: seq<ComposedInput>, sorted: seq<SortableInput>): seq<ComposedInput>
    requires forall k :: 0 <= k < |sorted| ==> sorted[k].index < |ins|
  {
    seq(|sorted|, k requires 0 <= k < |sorted| => ins[sorted[k].index])
  }

  function OutputsBack(outs: seq<ComposedOutput>, sorted: seq<SortableOutput>): seq<ComposedOutput>
    requires forall k :: 0 <= k < |sorted| ==> sorted[k].index < |outs|
  {
    seq(|sorted|, k requires 0 <= k < |sorted| => outs[sorted[k].index])
  }

  /** Lines 365-473 and 499-593: order the chosen inputs and outputs. */
  method Assemble(req: Request, sel: Selection, scripts: Scripts, rng: Rng) returns (res: ComposeResult)
    requires Complete(req) && !sel.InsufficientFunds? && InRange(req, sel.selected) && Fair(rng)
    ensures Describes(req, sel, res)
    ensures req.strategy.Bip69? ==> OutputsOrdered69(res.outputs, scripts) && InputsOrdered69(res.inputs)
    ensures req.strategy.Random? ==> PaymentsInOrder(req, res.outputsPermutation)
    ensures req.strategy.KeepOrder? ==> res.outputs == ComposedOutputs(req, sel)
                                        && res.inputs == ComposedInputs(req, sel.selected)
  {
    hide ComposedOutputs, ComposedInputs, Sortable, TotalSpent, Fair, Only, Precedes, FeePerByte, RisingIndices;
    var ins, outs := ComposedInputs(req, sel.selected), ComposedOutputs(req, sel);
    var sortedIns, sortedOuts, permutation :=
      Arrange(SortableInputs(ins), SortableOutputs(outs, scripts), req.strategy, rng);
    IndexedInputs(ins, sortedIns);
    IndexedOutputs(outs, sortedOuts, scripts);
    var outputs := OutputsBack(outs, sortedOuts);
    var bytes := WeightToVbytes(sel.weight);
    assert permutation == Map((o: SortableOutput) => o.index, sortedOuts);
    res := Final(TotalSpent(req, sel), sel.fee, FeePerByte(sel.fee, bytes), bytes, InputsBack(ins, sortedIns), outputs,
                 permutation);
    if req.strategy.Random? {
      PaymentsRise(req, sel, sortedOuts, scripts);
    }
    if req.strategy.KeepOrder? {
      assert outputs == outs && InputsBack(ins, sortedIns) == ins;
    }
    if req.strategy.Bip69? {
      BackInOrder(outs, sortedOuts, scripts, outputs);
      InputsBackInOrder(ins, sortedIns);
    }
  }

  lemma BackInOrder(outs: seq<ComposedOutput>, sorted: seq<SortableOutput>, scripts: Scripts,
                    outputs: seq<ComposedOutput>)
    requires |outputs| == |sorted|
    requires forall i, j :: 0 <= i < j < |sorted| ==>
                              || sorted[i].amount < sorted[j].amount
                              || (sorted[i].amount == sorted[j].amount
                                  && Precedes(sorted[i].scriptPubkey, sorted[j].scriptPubkey))
    requires forall k :: 0 <= k < |sorted| ==>
               sorted[k].index < |outs| && sorted[k] == Sortable(outs[sorted[k].index], sorted[k].index, scripts)
    requires forall k :: 0 <= k < |sorted| ==> outputs[k] == outs[sorted[k].index]
    ensures OutputsOrdered69(outputs, scripts)
  {
    hide Precedes;
    forall k | 0 <= k < |outputs|
      ensures sorted[k].amount == Outgoing(outputs[k]) && sorted[k].scriptPubkey == ScriptOf(outputs[k], scripts)
    {
    }
  }

  lemma InputsBackInOrder(ins: seq<ComposedInput>, sorted: seq<SortableInput>)
    requires multiset(sorted) == multiset(SortableInputs(ins))
    requires forall k :: 0 <= k < |sorted| ==> sorted[k].index < |ins|
    requires forall i, j :: 0 <= i < j < |sorted| ==>
                              if sorted[i].txid == sorted[j].txid then sorted[i].vout <= sorted[j].vout
                              else Precedes(Codes(sorted[i].txid), Codes(sorted[j].txid))
    ensures InputsOrdered69(InputsBack(ins, sorted))
  {
    hide Precedes, Codes;
    var all := SortableInputs(ins);
    forall k | 0 <= k < |sorted|
      ensures sorted[k].txid == ins[sorted[k].index].txid && sorted[k].vout == ins[sorted[k].index].vout
    {
      assert sorted[k] in multiset(all);
      var i :| 0 <= i < |all| && all[i] == sorted[k];
    }
  }

  /** A random placement of change leaves the payments in the order the user gave. */
  lemma PaymentsRise(req: Request, sel: Selection, sorted: seq<SortableOutput>, scripts: Scripts)
    requires Complete(req)
    requires var outs := ComposedOutputs(req, sel);
             && (forall k :: 0 <= k < |sorted| ==>
                   sorted[k].index < |outs| && sorted[k] == Sortable(outs[sorted[k].index], sorted[k].index, scripts))
             && (RisingIndices(SortableOutputs(outs, scripts)) ==>
                   forall i, j :: 0 <= i < j < |sorted| && !sorted[i].isChange && !sorted[j].isChange ==>
                                    sorted[i].index < sorted[j].index)
    ensures PaymentsInOrder(req, Map((o: SortableOutput) => o.index, sorted))
  {
    hide Requested;
    var outs := ComposedOutputs(req, sel);
    assert RisingIndices(SortableOutputs(outs, scripts));
    forall k | 0 <= k < |sorted| && sorted[k].index < |req.outputs| ensures !sorted[k].isChange {
      RequestedIsNotChange(req, sel, sorted[k].index);
    }
  }

  lemma RequestedIsNotChange(req: Request, sel: Selection, i: nat)
    requires Complete(req) && i < |req.outputs|
    ensures i < |ComposedOutputs(req, sel)| && !ComposedOutputs(req, sel)[i].ChangeOut?
  {
  }

  /** `compose_tx`, every arm. */
  method ComposeTx(req: Request, scripts: Scripts, rng: Rng) returns (res: ComposeResult)
    requires Fair(rng)
    ensures req.inputs == [] ==> res == Error(MissingUtxos)
    ensures req.inputs != [] && req.outputs == [] ==> res == Error(MissingOutputs)
    ensures req.inputs != [] && req.outputs != [] && req.feeRate <= 0.0 ==> res == Error(IncorrectFeeRate)
    ensures req.inputs != [] && req.outputs != [] && req.feeRate > 0.0 ==>
              var sel := Chosen(req);
              if sel.InsufficientFunds? then res == Error(NotEnoughFunds)
              else if !Complete(req) then
                && res.NonFinal? && res.fee == sel.fee && res.bytes == WeightToVbytes(sel.weight)
                && (if sel.SendMax? then res.max == Some(sel.maxAmount) && res.totalSpent == sel.maxAmount + sel.fee
                    else res.max == None && res.totalSpent == PaymentsTotal(req.outputs) + sel.fee)
                && (res.bytes > 0 ==> res.feePerByte * res.bytes as real == res.fee as real)
              else
                && InRange(req, sel.selected) && Describes(req, sel, res)
                && Delivers(req, res, if sel.SendMax? then sel.maxAmount else 0,
                            if sel.Success? && sel.hasChange then sel.changeAmount else 0)
                && (res.bytes > 0 ==> res.feePerByte * res.bytes as real == res.fee as real)
                && (req.strategy.Bip69? ==> OutputsOrdered69(res.outputs, scripts) && InputsOrdered69(res.inputs))
                && (req.strategy.Random? ==> PaymentsInOrder(req, res.outputsPermutation))
                && (req.strategy.KeepOrder? ==> res.outputs == ComposedOutputs(req, sel)
                                                && res.inputs == ComposedInputs(req, sel.selected))
  {
    hide Split, TryFrom, Sort, Describes, ComposedOutputs, ComposedInputs, FeePerByte, PaymentsTotal, Delivers,
         PaymentsInOrder, InputsOrdered69, OutputsOrdered69, SpendingOf, HistoryOf, SortedCoins;
    if req.inputs == [] {
      return Error(MissingUtxos);
    }
    if req.outputs == [] {
      return Error(MissingOutputs);
    }
    if req.feeRate <= 0.0 {
      return Error(IncorrectFeeRate);
    }
    var coins, s, h := SortedCoins(req), SpendingOf(req), HistoryOf(req);
    var sel;
    if WantsMax(req) {
      sel := SelectAll(coins, s, h.confirmations, h.coinbase);
    } else {
      sel := SelectConfirmed(coins, s, h, 1, 6);
    }
    if sel.InsufficientFunds? {
      return Error(NotEnoughFunds);
    }
    if !Complete(req) {
      var bytes := WeightToVbytes(sel.weight);
      return NonFinal(if sel.SendMax? then Some(sel.maxAmount) else None, TotalSpent(req, sel), sel.fee,
                      FeePerByte(sel.fee, bytes), bytes);
    }
    SelectedInRange(req);
    res := Assemble(req, sel, scripts, rng);
    DescribedDelivers(req, sel, res);
  }

  // ----- the coins behind the selection -----

  lemma SortedCoinsPermute(req: Request)
    ensures multiset(SortedCoins(req)) == multiset(CoinsOf(req))
  {
    SortPermutes(ByScore(req.feeRate), CoinsOf(req));
  }

  lemma CoinsAreDistinct(req: Request)
    ensures Distinct(CoinsOf(req))
  {
    forall i, j | 0 <= i < j < |req.inputs| ensures CoinsOf(req)[i] != CoinsOf(req)[j] {
      assert CoinsOf(req)[i].index == i && CoinsOf(req)[j].index == j;
    }
  }

  ghost predicate FromRequest(req: Request, chosen: seq<Coin>) {
    forall k :: 0 <= k < |chosen| ==> chosen[k].index < |req.inputs| && chosen[k] == CoinAt(req, chosen[k].index)
  }

  lemma PartOfRequest(req: Request, chosen: seq<Coin>)
    requires multiset(chosen) <= multiset(SortedCoins(req))
    ensures FromRequest(req, chosen) && Distinct(chosen)
    ensures InRange(req, Indices(chosen))
  {
    hide Sort;
    SortedCoinsPermute(req);
    CoinsAreDistinct(req);
    DistinctPart(chosen, CoinsOf(req));
    forall k | 0 <= k < |chosen| ensures chosen[k].index < |req.inputs| && chosen[k] == CoinAt(req, chosen[k].index) {
      assert chosen[k] in multiset(CoinsOf(req));
    }
  }

  lemma MaxMatches(req: Request)
    ensures HasSendMax(SpendingOf(req).outputs) <==> WantsMax(req)
  {
    var outs := SpendingOf(req).outputs;
    assert forall i :: 0 <= i < |outs| ==> (outs[i].isSendMax <==> IsMax(req.outputs[i]));
    if WantsMax(req) {
      var i :| 0 <= i < |req.outputs| && IsMax(req.outputs[i]);
      assert outs[i].isSendMax;
    }
  }

  /** The coins behind a fixed payment. */
  lemma CoinsOfPayment(req: Request) returns (chosen: seq<Coin>)
    requires !WantsMax(req) && !Chosen(req).InsufficientFunds?
    ensures Accounts(chosen, SortedCoins(req), SpendingOf(req), Chosen(req))
    ensures FromRequest(req, chosen) && Distinct(chosen) && InRange(req, Indices(chosen))
  {
    hide TryFrom, SortedCoins, SpendingOf, RequiredOf, FinalizeCoins, Pays, Report, Passes;
    MaxMatches(req);
    var f;
    f, chosen := SelectedPassed(SortedCoins(req), SpendingOf(req), HistoryOf(req), Trials(1, 6));
    PartOfRequest(req, chosen);
  }

  lemma SelectedInRange(req: Request)
    requires !Chosen(req).InsufficientFunds?
    ensures InRange(req, Chosen(req).selected)
  {
    if WantsMax(req) {
      hide SortedCoins, TransactionWeight, CalculateFee;
      var h := HistoryOf(req);
      MatureIsPart(SortedCoins(req), h.confirmations, h.coinbase);
      PartOfRequest(req, Mature(SortedCoins(req), h.confirmations, h.coinbase));
    } else {
      hide SortedCoins, FinalizeCoins, TryFrom;
      var chosen := CoinsOfPayment(req);
    }
  }
}
