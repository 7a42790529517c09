/** Ordering the inputs and outputs of a composed transaction (sorting.rs, `sort_transaction`). */
module SortTransaction {
  import opened StableSort
  import opened Permutation

  datatype SortingStrategy = Bip69 | Random | KeepOrder

  datatype SortableInput = SortableInput(index: nat, txid: string, vout: nat)
  datatype SortableOutput = SortableOutput(index: nat, amount: nat, scriptPubkey: seq<nat>, isChange: bool)

  /** The random generator, as the choices it makes: a shuffle of `n` things and a position among `n + 1`. */
  datatype Rng = Rng(shuffle: nat -> seq<nat>, draw: (nat, nat) -> nat)

  function Identity(n: nat): seq<nat> {
    seq(n, i requires 0 <= i < n => i)
  }

  ghost predicate Fair(rng: Rng) {
    && (forall n :: multiset(rng.shuffle(n)) == multiset(Identity(n)))
    && (forall k, n :: rng.draw(k, n) <= n)
  }

  // ----- BIP-69 orders -----

  predicate Lex(a: seq<int>, b: seq<int>) {
    a == [] || (b != [] && (a[0] < b[0] || (a[0] == b[0] && Lex(a[1..], b[1..]))))
  }

  function Codes(s: string): seq<int> {
    seq(|s|, i requires 0 <= i < |s| => s[i] as int)
  }

  predicate InputOrder(a: SortableInput, b: SortableInput) {
    if a.txid == b.txid then a.vout <= b.vout else Lex(Codes(a.txid), Codes(b.txid))
  }

  predicate OutputOrder(a: SortableOutput, b: SortableOutput) {
    a.amount < b.amount || (a.amount == b.amount && Lex(a.scriptPubkey, b.scriptPubkey))
  }

  lemma {:induction false} LexTotal(a: seq<int>, b: seq<int>)
    ensures Lex(a, b) || Lex(b, a)
    ensures Lex(a, b) && Lex(b, a) ==> a == b
  {
    if a != [] && b != [] {
      LexTotal(a[1..], b[1..]);
      assert a == [a[0]] + a[1..] && b == [b[0]] + b[1..];
    }
  }

  /** In front by the first element that differs, or as a prefix. */
  ghost predicate Precedes(a: seq<int>, b: seq<int>) {
    exists k :: 0 <= k <= |a| && k <= |b| && a[..k] == b[..k] && (k == |a| || (k < |b| && a[k] < b[k]))
  }

  lemma {:induction false} LexExactly(a: seq<int>, b: seq<int>)
    ensures Lex(a, b) <==> Precedes(a, b)
  {
    if a == [] {
      assert a[..0] == b[..0];
    } else if b != [] {
      LexExactly(a[1..], b[1..]);
      assert a == [a[0]] + a[1..] && b == [b[0]] + b[1..];
      if a[0] < b[0] {
        assert a[..0] == b[..0];
      } else if a[0] == b[0] {
        PrecedesStep(a[0], a[1..], b[1..]);
      }
    }
  }

  lemma PrecedesStep(x: int, a: seq<int>, b: seq<int>)
    ensures Precedes([x] + a, [x] + b) <==> Precedes(a, b)
  {
    var c, d := [x] + a, [x] + b;
    assert forall k :: 0 <= k <= |a| ==> c[..k + 1] == [x] + a[..k];
    assert forall k :: 0 <= k <= |b| ==> d[..k + 1] == [x] + b[..k];
    if k :| 0 <= k <= |a| && k <= |b| && a[..k] == b[..k] && (k == |a| || (k < |b| && a[k] < b[k])) {
      assert c[..k + 1] == d[..k + 1];
    }
    if k :| 0 <= k <= |c| && k <= |d| && c[..k] == d[..k] && (k == |c| || (k < |d| && c[k] < d[k])) {
      assert a[..k - 1] == c[..k][1..] == d[..k][1..] == b[..k - 1];
    }
  }

  lemma {:induction false} LexTransitive(a: seq<int>, b: seq<int>, c: seq<int>)
    requires Lex(a, b) && Lex(b, c)
    ensures Lex(a, c)
  {
    if a != [] && a[0] == b[0] == c[0] {
      LexTransitive(a[1..], b[1..], c[1..]);
    }
  }

  lemma CodesInjective(s: string, t: string)
    requires Codes(s) == Codes(t)
    ensures s == t
  {
    assert |s| == |Codes(s)| == |t|;
    forall i | 0 <= i < |s| ensures s[i] == t[i] {
      assert s[i] as int == Codes(s)[i] == Codes(t)[i] == t[i] as int;
    }
  }

  lemma OrdersAreTotal()
    ensures TotalPreorder(InputOrder) && TotalPreorder(OutputOrder)
  {
    forall a, b ensures InputOrder(a, b) || InputOrder(b, a) {
      LexTotal(Codes(a.txid), Codes(b.txid));
    }
    forall a, b, c | InputOrder(a, b) && InputOrder(b, c) ensures InputOrder(a, c) {
      InputOrderTransitive(a, b, c);
    }
    forall a, b ensures OutputOrder(a, b) || OutputOrder(b, a) {
      LexTotal(a.scriptPubkey, b.scriptPubkey);
    }
    forall a, b, c | OutputOrder(a, b) && OutputOrder(b, c) ensures OutputOrder(a, c) {
      if a.amount == b.amount == c.amount {
        LexTransitive(a.scriptPubkey, b.scriptPubkey, c.scriptPubkey);
      }
    }
  }

  lemma InputOrderTransitive(a: SortableInput, b: SortableInput, c: SortableInput)
    requires InputOrder(a, b) && InputOrder(b, c)
    ensures InputOrder(a, c)
  {
    if a.txid != b.txid && b.txid != c.txid {
      LexTransitive(Codes(a.txid), Codes(b.txid), Codes(c.txid));
      if a.txid == c.txid {
        LexTotal(Codes(a.txid), Codes(b.txid));
        CodesInjective(a.txid, b.txid);
      }
    }
  }

  lemma OrdersExactly()
    ensures forall a, b :: InputOrder(a, b)
                           <==> if a.txid == b.txid then a.vout <= b.vout else Precedes(Codes(a.txid), Codes(b.txid))
    ensures forall a, b :: OutputOrder(a, b)
                           <==> || a.amount < b.amount
                                || (a.amount == b.amount && Precedes(a.scriptPubkey, b.scriptPubkey))
  {
    forall a: seq<int>, b: seq<int> ensures Lex(a, b) <==> Precedes(a, b) {
      LexExactly(a, b);
    }
  }

  // ----- random placement of change -----

  function Only(outputs: seq<SortableOutput>, change: bool): seq<SortableOutput> {
    if outputs == [] then []
    else (if outputs[0].isChange == change then [outputs[0]] else []) + Only(outputs[1..], change)
  }

  lemma {:induction false} OnlyConcat(a: seq<SortableOutput>, b: seq<SortableOutput>, change: bool)
    ensures Only(a + b, change) == Only(a, change) + Only(b, change)
  {
    if a == [] {
      assert a + b == b;
    } else {
      OnlyConcat(a[1..], b, change);
      assert (a + b)[1..] == a[1..] + b && (a + b)[0] == a[0];
      var head := if a[0].isChange == change then [a[0]] else [];
      assert Only(a + b, change) == head + (Only(a[1..], change) + Only(b, change));
      assert Only(a, change) == head + Only(a[1..], change);
    }
  }

  lemma {:induction false} Partition(outputs: seq<SortableOutput>)
    ensures multiset(outputs) == multiset(Only(outputs, true)) + multiset(Only(outputs, false))
  {
    if outputs != [] {
      Partition(outputs[1..]);
      assert outputs == [outputs[0]] + outputs[1..];
    }
  }

  lemma {:induction false} OnlyThose(outputs: seq<SortableOutput>, change: bool)
    ensures forall o :: o in Only(outputs, change) ==> o.isChange == change
  {
    if outputs != [] {
      OnlyThose(outputs[1..], change);
    }
  }

  lemma {:induction false} OnlyTwice(outputs: seq<SortableOutput>, change: bool)
    requires forall i :: 0 <= i < |outputs| ==> outputs[i].isChange == change
    ensures Only(outputs, change) == outputs
  {
    if outputs != [] {
      OnlyTwice(outputs[1..], change);
    }
  }

  lemma OnlyAgain(outputs: seq<SortableOutput>, change: bool)
    ensures Only(Only(outputs, change), change) == Only(outputs, change)
  {
    hide Only;
    OnlyThose(outputs, change);
    var r := Only(outputs, change);
    forall i | 0 <= i < |r| ensures r[i].isChange == change {
      assert r[i] in r;
    }
    OnlyTwice(r, change);
  }

  ghost predicate RisingIndices(outputs: seq<SortableOutput>) {
    forall i, j :: 0 <= i < j < |outputs| ==> outputs[i].index < outputs[j].index
  }

  lemma RisingCons(o: SortableOutput, rest: seq<SortableOutput>)
    ensures RisingIndices([o] + rest) <==> RisingIndices(rest) && forall x :: x in rest ==> o.index < x.index
  {
    var all := [o] + rest;
    assert forall i :: 0 <= i < |rest| ==> all[i + 1] == rest[i];
    if RisingIndices(all) {
      forall i, j | 0 <= i < j < |rest| ensures rest[i].index < rest[j].index {
        assert all[i + 1].index < all[j + 1].index;
      }
      forall x | x in rest ensures o.index < x.index {
        var i :| 0 <= i < |rest| && rest[i] == x;
        assert all[0].index < all[i + 1].index;
      }
    }
  }

  lemma {:induction false} OnlyRises(outputs: seq<SortableOutput>, change: bool)
    requires RisingIndices(outputs)
    ensures RisingIndices(Only(outputs, change))
    ensures forall o :: o in Only(outputs, change) ==> o in outputs
  {
    if outputs != [] {
      var o, rest := outputs[0], outputs[1..];
      assert outputs == [o] + rest;
      RisingCons(o, rest);
      OnlyRises(rest, change);
      RisingCons(o, Only(rest, change));
    }
  }

  lemma {:induction false} StayInOnly(outputs: seq<SortableOutput>, change: bool, i: nat)
    requires i < |outputs| && outputs[i].isChange == change
    ensures outputs[i] in Only(outputs, change)
  {
    if i > 0 {
      StayInOnly(outputs[1..], change, i - 1);
    }
  }

  /** Where the others rise in index, any two of them stand in that order. */
  lemma {:induction false} OthersRise(outputs: seq<SortableOutput>, i: nat, j: nat)
    requires RisingIndices(Only(outputs, false))
    requires i < j < |outputs| && !outputs[i].isChange && !outputs[j].isChange
    ensures outputs[i].index < outputs[j].index
  {
    if !outputs[0].isChange {
      RisingCons(outputs[0], Only(outputs[1..], false));
    } else {
      assert [] + Only(outputs[1..], false) == Only(outputs[1..], false);
    }
    if i == 0 {
      StayInOnly(outputs[1..], false, j - 1);
    } else {
      OthersRise(outputs[1..], i - 1, j - 1);
    }
  }

  lemma ShufflePermutes(inputs: seq<SortableInput>, shuffle: seq<nat>)
    requires multiset(shuffle) == multiset(Identity(|inputs|))
    ensures forall i :: 0 <= i < |shuffle| ==> shuffle[i] < |inputs|
    ensures multiset(Reorder(inputs, shuffle)) == multiset(inputs)
  {
    forall i | 0 <= i < |shuffle| ensures shuffle[i] < |inputs| {
      assert shuffle[i] in multiset(shuffle);
    }
    if inputs == [] {
      assert |multiset(shuffle)| == 0;
      assert Reorder(inputs, shuffle) == [];
    } else {
      var pick := (k: nat) => if k < |inputs| then inputs[k] else inputs[0];
      MapPermutes(pick, shuffle, Identity(|inputs|));
      assert Map(pick, Identity(|inputs|)) == inputs;
      assert Map(pick, shuffle) == Reorder(inputs, shuffle);
    }
  }

  function Reorder<A>(xs: seq<A>, order: seq<nat>): seq<A>
    requires forall i :: 0 <= i < |order| ==> order[i] < |xs|
  {
    seq(|order|, i requires 0 <= i < |order| => xs[order[i]])
  }

  lemma InsertAdds(outs: seq<SortableOutput>, pos: nat, c: SortableOutput)
    requires pos <= |outs|
    ensures multiset(outs[..pos] + [c] + outs[pos..]) == multiset(outs) + multiset{c}
  {
    assert outs == outs[..pos] + outs[pos..];
    assert multiset(outs) == multiset(outs[..pos]) + multiset(outs[pos..]);
  }

  lemma InsertChange(a: seq<SortableOutput>, c: SortableOutput, b: seq<SortableOutput>)
    requires c.isChange
    ensures Only(a + [c] + b, false) == Only(a + b, false)
  {
    OnlyConcat(a, b, false);
    OnlyConcat(a + [c], b, false);
    OnlyConcat(a, [c], false);
    assert Only([c], false) == [];
  }

  method PlaceChange(outputs: seq<SortableOutput>, rng: Rng) returns (outs: seq<SortableOutput>)
    requires Fair(rng)
    ensures multiset(outs) == multiset(outputs)
    ensures Only(outs, false) == Only(outputs, false)
  {
    outs := Only(outputs, false);
    var changes := Only(outputs, true);
    Partition(outputs);
    OnlyThose(outputs, true);
    OnlyAgain(outputs, false);
    hide Only;
    for i := 0 to |changes|
      invariant multiset(outs) == multiset(Only(outputs, false)) + multiset(changes[..i])
      invariant Only(outs, false) == Only(outputs, false)
    {
      var pos := rng.draw(i, |outs|);
      assert changes[i] in changes && changes[..i + 1] == changes[..i] + [changes[i]];
      InsertAdds(outs, pos, changes[i]);
      InsertChange(outs[..pos], changes[i], outs[pos..]);
      assert outs[..pos] + outs[pos..] == outs;
      outs := outs[..pos] + [changes[i]] + outs[pos..];
    }
    assert changes[..|changes|] == changes;
  }

  /** `sort_transaction`: nothing is lost or added; BIP-69 orders both lists by their keys; a random placement of
      change leaves the payments in the order the user gave; the permutation names where each output came from. */
  method Arrange(inputs: seq<SortableInput>, outputs: seq<SortableOutput>, strategy: SortingStrategy, rng: Rng)
    returns (ins: seq<SortableInput>, outs: seq<SortableOutput>, permutation: seq<nat>)
    requires Fair(rng)
    ensures multiset(ins) == multiset(inputs) && multiset(outs) == multiset(outputs)
    ensures |permutation| == |outs| && forall i :: 0 <= i < |outs| ==> permutation[i] == outs[i].index
    ensures strategy.Bip69? ==>
              && (forall i, j :: 0 <= i < j < |ins| ==>
                                   if ins[i].txid == ins[j].txid then ins[i].vout <= ins[j].vout
                                   else Precedes(Codes(ins[i].txid), Codes(ins[j].txid)))
              && (forall i, j :: 0 <= i < j < |outs| ==>
                                   || outs[i].amount < outs[j].amount
                                   || (outs[i].amount == outs[j].amount
                                       && Precedes(outs[i].scriptPubkey, outs[j].scriptPubkey)))
    ensures strategy.Random? ==> Only(outs, false) == Only(outputs, false)
    ensures strategy.Random? && RisingIndices(outputs) ==>
              forall i, j :: 0 <= i < j < |outs| && !outs[i].isChange && !outs[j].isChange ==>
                               outs[i].index < outs[j].index
    ensures strategy.KeepOrder? ==> ins == inputs && outs == outputs
  {
    match strategy {
      case Bip69 =>
        OrdersAreTotal();
        ins, outs := Sort(InputOrder, inputs), Sort(OutputOrder, outputs);
        SortPermutes(InputOrder, inputs);
        SortSorts(InputOrder, inputs);
        SortPermutes(OutputOrder, outputs);
        SortSorts(OutputOrder, outputs);
        OrdersExactly();
      case Random =>
        ShufflePermutes(inputs, rng.shuffle(|inputs|));
        ins := Reorder(inputs, rng.shuffle(|inputs|));
        outs := PlaceChange(outputs, rng);
        if RisingIndices(outputs) {
          OnlyRises(outputs, false);
          forall i, j | 0 <= i < j < |outs| && !outs[i].isChange && !outs[j].isChange
            ensures outs[i].index < outs[j].index
          {
            OthersRise(outs, i, j);
          }
        }
      case KeepOrder =>
        ins, outs := inputs, outputs;
    }
    permutation := seq(|outs|, i requires 0 <= i < |outs| => outs[i].index);
  }
}
