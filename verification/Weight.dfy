/** Transaction weight, fee and dust rules of the compose engine (weight.rs, dust.rs).

    A fee rate is an exact `real`; weights and amounts are unbounded naturals.  The fee rounds up
    twice, weight units to virtual bytes and virtual bytes to satoshis, so what the coin selectors
    rely on is that the doubly rounded fee is subadditive. */
module Weight {

  datatype ScriptType =
    | SpendAddress
    | SpendMultisig
    | External
    | SpendWitness
    | SpendP2SHWitness
    | SpendTaproot

  const TX_BASE_WEIGHT: nat := 32
  const SEGWIT_OVERHEAD: nat := 2
  const DEFAULT_DUST_THRESHOLD: nat := 546
  const DUST_RELAY_FEE_RATE: real := 3.0

  function InputWeight(t: ScriptType): nat {
    match t
    case SpendAddress => 592
    case SpendP2SHWitness => 364
    case SpendWitness => 272
    case SpendTaproot => 230
    case SpendMultisig => 592
    case External => 272
  }

  function OutputWeight(t: ScriptType): nat {
    match t
    case SpendAddress => 136
    case SpendP2SHWitness => 128
    case SpendWitness => 124
    case SpendTaproot => 172
    case SpendMultisig => 128
    case External => 124
  }

  function OpReturnOutputWeight(dataLen: nat): nat {
    4 * (8 + 1 + 1 + 1 + dataLen)
  }

  function VarintWeight(n: nat): nat {
    4 * (if n < 0xFD then 1 else if n <= 0xFFFF then 3 else if n <= 0xFFFF_FFFF then 5 else 9)
  }

  predicate IsSegwit(t: ScriptType) {
    t.SpendWitness? || t.SpendP2SHWitness? || t.SpendTaproot?
  }

  function SegwitCount(types: seq<ScriptType>): nat {
    if types == [] then 0
    else SegwitCount(types[..|types| - 1]) + if IsSegwit(types[|types| - 1]) then 1 else 0
  }

  function InputWeights(types: seq<ScriptType>): nat {
    if types == [] then 0 else InputWeights(types[..|types| - 1]) + InputWeight(types[|types| - 1])
  }

  function Sum(ws: seq<nat>): nat {
    if ws == [] then 0 else Sum(ws[..|ws| - 1]) + ws[|ws| - 1]
  }

  /** The weight beyond version, locktime, one-byte input count, inputs and outputs: a longer input
      count, the segwit marker and flag, and one empty witness for each legacy input beside a segwit one. */
  function Overhead(count: nat, segwit: nat): nat
    requires segwit <= count
  {
    VarintWeight(count) - 4 + if segwit == 0 then 0 else SEGWIT_OVERHEAD + (count - segwit)
  }

  function BaseWeight(outputWeights: seq<nat>): nat {
    TX_BASE_WEIGHT + 4 + VarintWeight(|outputWeights|) + Sum(outputWeights)
  }

  lemma SegwitCountBound(types: seq<ScriptType>)
    ensures SegwitCount(types) <= |types|
  {
  }

  function InputOverhead(types: seq<ScriptType>): nat {
    SegwitCountBound(types);
    Overhead(|types|, SegwitCount(types))
  }

  function TransactionWeight(types: seq<ScriptType>, outputWeights: seq<nat>): nat {
    BaseWeight(outputWeights) + InputWeights(types) + InputOverhead(types)
  }

  /** The accumulating loops of `transaction_weight`. */
  method ComputeTransactionWeight(types: seq<ScriptType>, outputWeights: seq<nat>) returns (weight: nat)
    ensures weight == TransactionWeight(types, outputWeights)
  {
    weight := TX_BASE_WEIGHT;
    weight := weight + VarintWeight(|types|);
    var hasSegwit, nonSegwit := false, 0;
    var start := weight;
    for i := 0 to |types|
      invariant weight == start + InputWeights(types[..i])
      invariant SegwitCount(types[..i]) + nonSegwit == i
      invariant hasSegwit == (SegwitCount(types[..i]) > 0)
    {
      assert types[..i + 1][..i] == types[..i];
      weight := weight + InputWeight(types[i]);
      if IsSegwit(types[i]) {
        hasSegwit := true;
      } else {
        nonSegwit := nonSegwit + 1;
      }
    }
    assert types[..|types|] == types;
    weight := weight + VarintWeight(|outputWeights|);
    start := weight;
    for i := 0 to |outputWeights|
      invariant weight == start + Sum(outputWeights[..i])
    {
      assert outputWeights[..i + 1][..i] == outputWeights[..i];
      weight := weight + outputWeights[i];
    }
    assert outputWeights[..|outputWeights|] == outputWeights;
    if hasSegwit {
      weight := weight + SEGWIT_OVERHEAD + nonSegwit;
    }
  }

  function WeightToVbytes(weight: nat): nat {
    (weight + 3) / 4
  }

  /** `x.ceil() as u64`; the cast sends a negative number to zero. */
  function CeilToSats(x: real): nat {
    if x <= 0.0 then 0 else -((-x).Floor)
  }

  /** `rate * vbytes`, as the rate paid once for each vbyte; TimesIsProduct equates the two.  Written so, the
      selection proofs stay linear. */
  function Times(rate: real, vbytes: nat): real {
    if vbytes == 0 then 0.0 else Times(rate, vbytes - 1) + rate
  }

  function FeeForVbytes(rate: real, vbytes: nat): nat {
    CeilToSats(Times(rate, vbytes))
  }

  function CalculateFee(rate: real, weight: nat): nat {
    FeeForVbytes(rate, WeightToVbytes(weight))
  }

  function DustAmount(t: ScriptType): nat {
    var spendCost := CeilToSats(DUST_RELAY_FEE_RATE * (WeightToVbytes(InputWeight(t)) as real));
    if spendCost < DEFAULT_DUST_THRESHOLD then DEFAULT_DUST_THRESHOLD else spendCost
  }

  // ----- rounding -----

  lemma CeilSubadditive(x: real, y: real, z: real)
    requires z <= x + y
    ensures CeilToSats(z) <= CeilToSats(x) + CeilToSats(y)
  {
    assert x <= CeilToSats(x) as real && y <= CeilToSats(y) as real;
    var bound := CeilToSats(x) + CeilToSats(y);
    assert z <= bound as real;
    if z > 0.0 {
      assert -z >= (-bound) as real;
      assert (-z).Floor >= -bound;
    }
  }

  lemma {:induction false} TimesIsProduct(rate: real, v: nat)
    ensures Times(rate, v) == rate * (v as real)
  {
    if v > 0 {
      TimesIsProduct(rate, v - 1);
      assert rate * (v as real) == rate * ((v - 1) as real) + rate;
    }
  }

  lemma {:induction false} TimesAdds(rate: real, x: nat, y: nat)
    ensures Times(rate, x + y) == Times(rate, x) + Times(rate, y)
  {
    if y > 0 {
      TimesAdds(rate, x, y - 1);
    }
  }

  lemma {:induction false} TimesSign(rate: real, x: nat)
    ensures if rate >= 0.0 then Times(rate, x) >= 0.0 else Times(rate, x) <= 0.0
    ensures rate > 0.0 && x > 0 ==> Times(rate, x) > 0.0
  {
    if x > 0 {
      TimesSign(rate, x - 1);
    }
  }

  lemma VbyteFeeMonotone(rate: real, x: nat, y: nat)
    requires x <= y
    ensures FeeForVbytes(rate, x) <= FeeForVbytes(rate, y)
  {
    TimesAdds(rate, x, y - x);
    TimesSign(rate, y - x);
    TimesSign(rate, x);
  }

  lemma VbyteFeeSubadditive(rate: real, x: nat, y: nat)
    ensures FeeForVbytes(rate, x + y) <= FeeForVbytes(rate, x) + FeeForVbytes(rate, y)
  {
    TimesAdds(rate, x, y);
    CeilSubadditive(Times(rate, x), Times(rate, y), Times(rate, x + y));
  }

  /** The doubly rounded fee is monotone in the weight. */
  lemma FeeMonotone(rate: real, a: nat, b: nat)
    requires a <= b
    ensures CalculateFee(rate, a) <= CalculateFee(rate, b)
  {
    VbyteFeeMonotone(rate, WeightToVbytes(a), WeightToVbytes(b));
  }

  /** The doubly rounded fee is subadditive: splitting a weight never lowers what is paid for it. */
  lemma FeeSubadditive(rate: real, a: nat, b: nat)
    ensures CalculateFee(rate, a + b) <= CalculateFee(rate, a) + CalculateFee(rate, b)
  {
    VbyteFeeMonotone(rate, WeightToVbytes(a + b), WeightToVbytes(a) + WeightToVbytes(b));
    VbyteFeeSubadditive(rate, WeightToVbytes(a), WeightToVbytes(b));
  }

  /** At a whole-number rate the second ceiling never rounds. */
  lemma WholeRateFee(rate: nat, weight: nat)
    ensures CalculateFee(rate as real, weight) == rate * WeightToVbytes(weight)
  {
    var v := WeightToVbytes(weight);
    TimesIsProduct(rate as real, v);
    assert (rate as real) * (v as real) == (rate * v) as real;
  }

  // ----- where the numbers come from -----

  /** The bytes of the script that unlocks an input, and of its witness. */
  function UnlockBytes(t: ScriptType): (nat, nat) {
    match t
    case SpendAddress => (107, 0)
    case SpendMultisig => (107, 0)
    case SpendP2SHWitness => (23, 108)
    case SpendWitness => (0, 108)
    case External => (0, 108)
    case SpendTaproot => (0, 66)
  }

  /** The bytes of the script that locks an output. */
  function LockBytes(t: ScriptType): nat {
    match t
    case SpendAddress => 25
    case SpendMultisig => 23
    case SpendP2SHWitness => 23
    case SpendWitness => 22
    case External => 22
    case SpendTaproot => 34
  }

  /** The weights are those of section "Transaction size calculations" of BIP-141: four for each byte outside the
      witness and one for each byte inside.  An input is an outpoint, a script with its length and a sequence number; an
      output is an amount and a script with its length.  An external input is weighed as segwit but not counted as
      such. */
  lemma WeightsAreBytes(t: ScriptType)
    ensures InputWeight(t) == 4 * (36 + 1 + UnlockBytes(t).0 + 4) + UnlockBytes(t).1
    ensures IsSegwit(t) <==> UnlockBytes(t).1 > 0 && !t.External?
    ensures OutputWeight(t) == 4 * (8 + 1 + LockBytes(t))
  {
  }

  /** A count takes one byte up to 252, else a marker and the fewest of two, four or eight bytes that hold it; a data
      output is an amount and a script of two opcodes and the data, whose length takes one byte. */
  lemma CountsAreBytes(n: nat)
    ensures VarintWeight(n) / 4 == 1 <==> n <= 252
    ensures VarintWeight(n) / 4 == 1 + 2 <==> 252 < n < 256 * 256
    ensures VarintWeight(n) / 4 == 1 + 4 <==> 256 * 256 <= n < 256 * 256 * 256 * 256
    ensures VarintWeight(n) / 4 == 1 + 8 <==> 256 * 256 * 256 * 256 <= n
    ensures VarintWeight(n) % 4 == 0 && OpReturnOutputWeight(n) == 4 * (8 + (1 + (2 + n)))
  {
  }

  /** Both roundings are ceilings: the vbytes are the fewest that hold the weight, and the fee is the least whole number
      that pays for them; a negative rate costs nothing. */
  lemma FeeIsCeiling(rate: real, weight: nat)
    ensures var v, fee := WeightToVbytes(weight), CalculateFee(rate, weight);
            && weight <= 4 * v < weight + 4
            && rate * (v as real) <= fee as real
            && (fee > 0 ==> (fee - 1) as real < rate * (v as real))
  {
    var v := WeightToVbytes(weight);
    TimesIsProduct(rate, v);
    var x := Times(rate, v);
    if x > 0.0 {
      assert ((-x).Floor as real) <= -x < ((-x).Floor + 1) as real;
    }
  }

  lemma PositiveRateFee(rate: real, weight: nat)
    requires rate > 0.0 && weight > 0
    ensures CalculateFee(rate, weight) > 0
  {
    TimesSign(rate, WeightToVbytes(weight));
  }
}
