/** The greedy fallback selector (accumulative.rs). */
module Accumulative {
  import opened Weight
  import opened CoinSelection

  function RequiredOf(coins: seq<Coin>): seq<Coin> {
    if coins == [] then [] else (if coins[0].required then [coins[0]] else []) + RequiredOf(coins[1..])
  }

  function OptionalOf(coins: seq<Coin>): seq<Coin> {
    if coins == [] then [] else (if coins[0].required then [] else [coins[0]]) + OptionalOf(coins[1..])
  }

  predicate Detrimental(c: Coin, rate: real) {
    c.amount < InputFee(rate, c)
  }

  /** The coins worth at least the fee of spending them. */
  function Worthwhile(coins: seq<Coin>, rate: real): seq<Coin> {
    if coins == [] then []
    else (if Detrimental(coins[0], rate) then [] else [coins[0]]) + Worthwhile(coins[1..], rate)
  }

  function FinalizeCoins(coins: seq<Coin>, s: Spending): FinalizeResult {
    Finalize(Amounts(coins), Types(coins), s)
  }

  function ReportOrFail(coins: seq<Coin>, s: Spending): Selection {
    var f := FinalizeCoins(coins, s);
    if f.Finalized? then Report(coins, f) else InsufficientFunds
  }

  /** Phase 2: add optional coins from the left until the choice pays. */
  function Extend(chosen: seq<Coin>, rest: seq<Coin>, s: Spending): Selection
    decreases |rest|
  {
    if rest == [] then InsufficientFunds
    else if Detrimental(rest[0], s.feeRate) then
      if |rest| == 1 then ReportOrFail(chosen + [rest[0]], s) else Extend(chosen, rest[1..], s)
    else
      var r := ReportOrFail(chosen + [rest[0]], s);
      if r.Success? then r else Extend(chosen + [rest[0]], rest[1..], s)
  }

  function Greedy(coins: seq<Coin>, s: Spending): Selection {
    var required := RequiredOf(coins);
    if required != [] && ReportOrFail(required, s).Success? then ReportOrFail(required, s)
    else Extend(required, OptionalOf(coins), s)
  }

  /** Phase 1 of `accumulative`. */
  method AddRequired(coins: seq<Coin>)
    returns (selected: seq<nat>, selectedSum: nat, selectedTypes: seq<ScriptType>)
    ensures var required := RequiredOf(coins);
            selected == Indices(required) && selectedSum == Amounts(required) && selectedTypes == Types(required)
  {
    selected, selectedSum, selectedTypes := [], 0, [];
    ghost var chosen: seq<Coin> := [];
    assert RequiredOf([]) == [] && Amounts(chosen) == 0 && Types(chosen) == [] && Indices(chosen) == [];
    hide RequiredOf, Amounts, Types, Indices;
    assert coins[0..] == coins;
    for i := 0 to |coins|
      invariant selected == Indices(chosen) && selectedSum == Amounts(chosen) && selectedTypes == Types(chosen)
      invariant RequiredOf(coins) == chosen + RequiredOf(coins[i..])
    {
      RequiredStep(chosen, coins, i);
      if coins[i].required {
        AppendTotals(chosen, coins[i]);
        chosen := chosen + [coins[i]];
        selected := selected + [coins[i].index];
        selectedSum := selectedSum + coins[i].amount;
        selectedTypes := selectedTypes + [coins[i].scriptType];
      }
    }
    assert coins[|coins|..] == [] && chosen + [] == chosen;
  }

  lemma RequiredStep(chosen: seq<Coin>, coins: seq<Coin>, i: nat)
    requires i < |coins|
    ensures chosen + RequiredOf(coins[i..])
            == (if coins[i].required then chosen + [coins[i]] else chosen) + RequiredOf(coins[i + 1..])
  {
    assert coins[i..][1..] == coins[i + 1..];
  }

  /** `accumulative`, with the early returns of its second loop. */
  method SelectGreedily(coins: seq<Coin>, s: Spending) returns (r: Selection)
    ensures r == Greedy(coins, s)
  {
    hide Finalize, CalculateFee, FeeWithChange, Price, RequiredOf, Amounts, Types, Extend;
    var selected, selectedSum, selectedTypes := AddRequired(coins);
    ghost var chosen := RequiredOf(coins);
    if selected != [] {
      var f := Finalize(selectedSum, selectedTypes, s);
      if f.Finalized? {
        return Success(selected, f.fee, f.changeAmount, f.hasChange, f.weight);
      }
    }
    var optional := OptionalOf(coins);
    assert optional[0..] == optional;
    for pos := 0 to |optional|
      invariant selected == Indices(chosen) && selectedSum == Amounts(chosen) && selectedTypes == Types(chosen)
      invariant Greedy(coins, s) == Extend(chosen, optional[pos..], s)
    {
      var coin := optional[pos];
      var isLast := pos == |optional| - 1;
      var detrimental := coin.amount < CalculateFee(s.feeRate, InputWeight(coin.scriptType));
      ExtendStep(chosen, optional, pos, s);
      if detrimental && !isLast {
        continue;
      }
      AppendTotals(chosen, coin);
      chosen := chosen + [coin];
      selected := selected + [coin.index];
      selectedSum := selectedSum + coin.amount;
      selectedTypes := selectedTypes + [coin.scriptType];
      var f := Finalize(selectedSum, selectedTypes, s);
      if f.Finalized? {
        return Success(selected, f.fee, f.changeAmount, f.hasChange, f.weight);
      }
    }
    NothingToAdd(chosen, s);
    assert optional[|optional|..] == [];
    r := InsufficientFunds;
  }

  lemma NothingToAdd(chosen: seq<Coin>, s: Spending)
    ensures Extend(chosen, [], s).InsufficientFunds?
  {
  }

  /** The loop body: a detrimental coin is skipped unless it is the last; any other is added and tried. */
  lemma ExtendStep(chosen: seq<Coin>, optional: seq<Coin>, pos: nat, s: Spending)
    requires pos < |optional|
    ensures var coin, rest := optional[pos], optional[pos + 1..];
            Extend(chosen, optional[pos..], s) ==
            if Detrimental(coin, s.feeRate) && rest != [] then Extend(chosen, rest, s)
            else if ReportOrFail(chosen + [coin], s).Success? then ReportOrFail(chosen + [coin], s)
            else Extend(chosen + [coin], rest, s)
  {
    hide FinalizeCoins;
    assert optional[pos..][1..] == optional[pos + 1..];
  }

  // ----- what a successful selection is -----

  /** `chosen` accounts for the selection `r`: coins of the list, each at most once, every required one
      among them, that pay, reported as `finalize` decided. */
  ghost predicate Accounts(chosen: seq<Coin>, coins: seq<Coin>, s: Spending, r: Selection) {
    && multiset(chosen) <= multiset(coins)
    && multiset(RequiredOf(coins)) <= multiset(chosen)
    && Pays(chosen, s)
    && r == Report(chosen, FinalizeCoins(chosen, s))
  }

  lemma {:induction false} PartsOf(coins: seq<Coin>)
    ensures multiset(coins) == multiset(RequiredOf(coins)) + multiset(OptionalOf(coins))
  {
    if coins != [] {
      PartsOf(coins[1..]);
      assert coins == [coins[0]] + coins[1..];
    }
  }

  lemma {:induction false} ExtendAccounts(chosen: seq<Coin>, rest: seq<Coin>, s: Spending) returns (more: seq<Coin>)
    requires !Extend(chosen, rest, s).InsufficientFunds?
    ensures multiset(more) <= multiset(rest)
    ensures Pays(chosen + more, s) && Extend(chosen, rest, s) == Report(chosen + more, FinalizeCoins(chosen + more, s))
    decreases |rest|
  {
    hide Finalize, Types, Amounts, Price;
    assert rest == [rest[0]] + rest[1..];
    var head := chosen + [rest[0]];
    if Detrimental(rest[0], s.feeRate) {
      if |rest| == 1 {
        more := [rest[0]];
      } else {
        more := ExtendAccounts(chosen, rest[1..], s);
      }
    } else if ReportOrFail(head, s).Success? {
      more := [rest[0]];
    } else {
      more := ExtendAccounts(head, rest[1..], s);
      assert head + more == chosen + ([rest[0]] + more);
      more := [rest[0]] + more;
    }
  }

  /** Whatever the greedy selector returns is accounted for. */
  lemma GreedyAccounts(coins: seq<Coin>, s: Spending) returns (chosen: seq<Coin>)
    requires !Greedy(coins, s).InsufficientFunds?
    ensures Accounts(chosen, coins, s, Greedy(coins, s))
  {
    PartsOf(coins);
    var required := RequiredOf(coins);
    if required != [] && ReportOrFail(required, s).Success? {
      chosen := required;
    } else {
      var more := ExtendAccounts(required, OptionalOf(coins), s);
      chosen := required + more;
    }
  }

  // ----- which attempt succeeds -----

  /** Phase 1 and the loop see the list in order: the required coins, the others, and of those the ones worth at least
      the fee of spending them. */
  lemma {:induction false} PartsInOrder(coins: seq<Coin>)
    ensures RequiredOf(coins) == Having(coins, (c: Coin) => c.required)
    ensures OptionalOf(coins) == Having(coins, (c: Coin) => !c.required)
  {
    if coins != [] {
      PartsInOrder(coins[1..]);
    }
  }

  lemma {:induction false} WorthwhileInOrder(coins: seq<Coin>, rate: real)
    ensures Worthwhile(coins, rate)
            == Having(coins, (c: Coin) => c.amount >= CalculateFee(rate, InputWeight(c.scriptType)))
  {
    hide CalculateFee;
    if coins != [] {
      WorthwhileInOrder(coins[1..], rate);
    }
  }

  /** `k` is the fewest worthwhile coins that pay together with the ones chosen already. */
  ghost predicate FewestPaying(chosen: seq<Coin>, w: seq<Coin>, s: Spending, k: nat) {
    0 < k <= |w| && Pays(chosen + w[..k], s) && forall j :: 0 < j < k ==> !Pays(chosen + w[..j], s)
  }

  lemma FewestStep(chosen: seq<Coin>, c: Coin, v: seq<Coin>, s: Spending, k: nat)
    ensures FewestPaying(chosen, [c] + v, s, k)
            <==> if Pays(chosen + [c], s) then k == 1 else k > 0 && FewestPaying(chosen + [c], v, s, k - 1)
  {
    hide Pays;
    var w := [c] + v;
    forall j | 0 <= j <= |v| ensures chosen + w[..j + 1] == chosen + [c] + v[..j] {
      assert w[..j + 1] == [c] + v[..j];
    }
    assert chosen + w[..1] == chosen + [c];
    assert chosen + [c] + v[..0] == chosen + [c];
    if k > 1 && FewestPaying(chosen, w, s, k) {
      forall j | 0 < j < k - 1 ensures !Pays(chosen + [c] + v[..j], s) {
        assert !Pays(chosen + w[..j + 1], s);
      }
    }
    if !Pays(chosen + [c], s) && k > 0 && FewestPaying(chosen + [c], v, s, k - 1) {
      forall j | 0 < j < k ensures !Pays(chosen + w[..j], s) {
        assert chosen + w[..j] == chosen + [c] + v[..j - 1];
      }
    }
  }

  lemma PaysFinalizes(coins: seq<Coin>, s: Spending)
    ensures FinalizeCoins(coins, s).Finalized? <==> Pays(coins, s)
  {
  }

  /** The loop stops at the fewest worthwhile coins that pay. */
  lemma {:induction false} ExtendTakesFewest(chosen: seq<Coin>, rest: seq<Coin>, s: Spending, k: nat)
    requires FewestPaying(chosen, Worthwhile(rest, s.feeRate), s, k)
    ensures var paying := chosen + Worthwhile(rest, s.feeRate)[..k];
            Pays(paying, s) && Extend(chosen, rest, s) == Report(paying, FinalizeCoins(paying, s))
    decreases |rest|
  {
    hide Pays, FinalizeCoins, Detrimental, FewestPaying;
    var w := Worthwhile(rest, s.feeRate);
    assert 0 < k <= |w| by { FewestIsSome(chosen, w, s, k); }
    var c, tail := rest[0], rest[1..];
    var v := Worthwhile(tail, s.feeRate);
    if Detrimental(c, s.feeRate) {
      assert w == v && tail != [];
      ExtendTakesFewest(chosen, tail, s, k);
    } else {
      assert w == [c] + v;
      FewestStep(chosen, c, v, s, k);
      PaysFinalizes(chosen + [c], s);
      if Pays(chosen + [c], s) {
        assert w[..1] == [c];
      } else {
        ExtendTakesFewest(chosen + [c], tail, s, k - 1);
        assert chosen + [c] + v[..k - 1] == chosen + w[..k];
      }
    }
  }

  lemma FewestIsSome(chosen: seq<Coin>, w: seq<Coin>, s: Spending, k: nat)
    requires FewestPaying(chosen, w, s, k)
    ensures 0 < k <= |w|
  {
  }

  lemma NonePayStep(chosen: seq<Coin>, c: Coin, v: seq<Coin>, s: Spending)
    requires forall k :: 0 < k <= |v| + 1 ==> !Pays(chosen + ([c] + v)[..k], s)
    ensures !Pays(chosen + [c], s) && forall k :: 0 < k <= |v| ==> !Pays(chosen + [c] + v[..k], s)
  {
    hide Pays;
    var w := [c] + v;
    assert w[..1] == [c];
    forall k | 0 < k <= |v| ensures !Pays(chosen + [c] + v[..k], s) {
      assert w[..k + 1] == [c] + v[..k];
      assert chosen + w[..k + 1] == chosen + [c] + v[..k];
    }
  }

  /** When no worthwhile coins pay, only the last coin, if it is detrimental, is left to try. */
  lemma {:induction false} ExtendTriesLast(chosen: seq<Coin>, rest: seq<Coin>, s: Spending)
    requires forall k :: 0 < k <= |Worthwhile(rest, s.feeRate)| ==> !Pays(chosen + Worthwhile(rest, s.feeRate)[..k], s)
    ensures var all := chosen + Worthwhile(rest, s.feeRate);
            Extend(chosen, rest, s)
            == if rest != [] && Detrimental(rest[|rest| - 1], s.feeRate) && Pays(all + [rest[|rest| - 1]], s)
               then ReportOrFail(all + [rest[|rest| - 1]], s)
               else InsufficientFunds
    decreases |rest|
  {
    hide Pays, FinalizeCoins, Detrimental, Report;
    if rest != [] {
      var c, tail := rest[0], rest[1..];
      var w, v := Worthwhile(rest, s.feeRate), Worthwhile(tail, s.feeRate);
      if Detrimental(c, s.feeRate) {
        assert w == v;
        if tail == [] {
          assert chosen + w == chosen;
          PaysFinalizes(chosen + [c], s);
        } else {
          ExtendTriesLast(chosen, tail, s);
        }
      } else {
        assert w == [c] + v;
        NonePayStep(chosen, c, v, s);
        PaysFinalizes(chosen + [c], s);
        ExtendTriesLast(chosen + [c], tail, s);
        assert chosen + [c] + v == chosen + w;
        if tail == [] {
          assert rest[|rest| - 1] == c;
        }
      }
    }
  }

  /** Which attempt the greedy selector returns: the required coins alone if there are any and they pay; otherwise those
      with the fewest worthwhile coins, from the front, that pay; otherwise everything with a detrimental last coin. */
  lemma GreedyReturnsExactly(coins: seq<Coin>, s: Spending)
    ensures var required, optional := RequiredOf(coins), OptionalOf(coins);
            var w := Worthwhile(optional, s.feeRate);
            if required != [] && Pays(required, s) then Greedy(coins, s) == Report(required, FinalizeCoins(required, s))
            else if exists k :: 0 < k <= |w| && Pays(required + w[..k], s) then
              exists k: nat :: FewestPaying(required, w, s, k)
                               && Greedy(coins, s) == Report(required + w[..k], FinalizeCoins(required + w[..k], s))
            else if optional != [] && Detrimental(optional[|optional| - 1], s.feeRate)
                    && Pays(required + w + [optional[|optional| - 1]], s) then
              var all := required + w + [optional[|optional| - 1]];
              Greedy(coins, s) == Report(all, FinalizeCoins(all, s))
            else Greedy(coins, s).InsufficientFunds?
  {
    hide Pays, FinalizeCoins, Detrimental, RequiredOf, OptionalOf, Worthwhile, Extend;
    var required, optional := RequiredOf(coins), OptionalOf(coins);
    var w := Worthwhile(optional, s.feeRate);
    PaysFinalizes(required, s);
    if required != [] && Pays(required, s) {
    } else if k :| 0 < k <= |w| && Pays(required + w[..k], s) {
      var fewest := LeastPaying(required, w, s, k);
      ExtendTakesFewest(required, optional, s, fewest);
    } else {
      ExtendTriesLast(required, optional, s);
      if optional != [] {
        PaysFinalizes(required + w + [optional[|optional| - 1]], s);
      }
    }
  }

  lemma LeastPaying(chosen: seq<Coin>, w: seq<Coin>, s: Spending, k: nat) returns (fewest: nat)
    requires 0 < k <= |w| && Pays(chosen + w[..k], s)
    ensures FewestPaying(chosen, w, s, fewest) && fewest <= k
  {
    hide Pays;
    fewest := 1;
    while !Pays(chosen + w[..fewest], s)
      invariant 0 < fewest <= k && forall j :: 0 < j < fewest ==> !Pays(chosen + w[..j], s)
      decreases k - fewest
    {
      fewest := fewest + 1;
    }
  }

  // ----- when it fails -----

  /** The attempts made: the required coins (if any), each longer prefix of the worthwhile coins after them,
      and everything plus a detrimental last coin. */
  ghost predicate SomeAttemptPays(chosen: seq<Coin>, rest: seq<Coin>, s: Spending) {
    var w := Worthwhile(rest, s.feeRate);
    || (exists k :: 0 < k <= |w| && Pays(chosen + w[..k], s))
    || (rest != [] && Detrimental(rest[|rest| - 1], s.feeRate) && Pays(chosen + w + [rest[|rest| - 1]], s))
  }

  lemma AttemptStep(chosen: seq<Coin>, c: Coin, rest: seq<Coin>, s: Spending)
    requires !Detrimental(c, s.feeRate)
    ensures SomeAttemptPays(chosen, [c] + rest, s)
            <==> Pays(chosen + [c], s) || SomeAttemptPays(chosen + [c], rest, s)
  {
    var all := [c] + rest;
    var w, v := Worthwhile(all, s.feeRate), Worthwhile(rest, s.feeRate);
    assert all[1..] == rest;
    assert w == [c] + v;
    assert w[..1] == [c];
    assert chosen + w == chosen + [c] + v;
    forall k | 0 <= k <= |v| ensures chosen + w[..k + 1] == chosen + [c] + v[..k] {
      assert w[..k + 1] == [c] + v[..k];
    }
    assert chosen + [c] + v[..0] == chosen + [c];
    if Pays(chosen + [c], s) {
      assert Pays(chosen + w[..1], s);
    }
    if k :| 0 < k <= |v| && Pays(chosen + [c] + v[..k], s) {
      assert Pays(chosen + w[..k + 1], s);
    }
    if k :| 0 < k <= |w| && Pays(chosen + w[..k], s) {
      assert chosen + w[..k] == chosen + [c] + v[..k - 1];
    }
    if rest != [] {
      assert all[|all| - 1] == rest[|rest| - 1];
    }
  }

  lemma {:induction false} ExtendFailsExactly(chosen: seq<Coin>, rest: seq<Coin>, s: Spending)
    ensures Extend(chosen, rest, s).InsufficientFunds? <==> !SomeAttemptPays(chosen, rest, s)
    decreases |rest|
  {
    if rest != [] {
      var tail := rest[1..];
      assert rest == [rest[0]] + tail;
      if Detrimental(rest[0], s.feeRate) {
        if |rest| == 1 {
          assert Worthwhile(tail, s.feeRate) == [];
          assert chosen + Worthwhile(rest, s.feeRate) == chosen;
        } else {
          ExtendFailsExactly(chosen, tail, s);
          assert Worthwhile(rest, s.feeRate) == Worthwhile(tail, s.feeRate);
          assert rest[|rest| - 1] == tail[|tail| - 1];
        }
      } else {
        AttemptStep(chosen, rest[0], tail, s);
        ExtendFailsExactly(chosen + [rest[0]], tail, s);
      }
    }
  }

  /** The greedy selector fails exactly when none of its attempts pays. */
  lemma GreedyFailsExactly(coins: seq<Coin>, s: Spending)
    ensures Greedy(coins, s).InsufficientFunds?
            <==> !(RequiredOf(coins) != [] && Pays(RequiredOf(coins), s))
                 && !SomeAttemptPays(RequiredOf(coins), OptionalOf(coins), s)
  {
    ExtendFailsExactly(RequiredOf(coins), OptionalOf(coins), s);
  }

  lemma AllWorthwhileFail(coins: seq<Coin>, s: Spending)
    requires Greedy(coins, s).InsufficientFunds?
    ensures var all := RequiredOf(coins) + Worthwhile(OptionalOf(coins), s.feeRate);
            all != [] ==> !Pays(all, s)
  {
    GreedyFailsExactly(coins, s);
    var w := Worthwhile(OptionalOf(coins), s.feeRate);
    if w == [] {
      assert RequiredOf(coins) + w == RequiredOf(coins);
    } else {
      assert w[..|w|] == w;
    }
  }

  lemma {:induction false} PaysItself(coins: seq<Coin>, rate: real)
    requires forall c :: c in coins ==> !Detrimental(c, rate)
    ensures InputFees(rate, coins) <= Amounts(coins)
  {
    if coins != [] {
      var n := |coins| - 1;
      PaysItself(coins[..n], rate);
      assert coins[n] in coins;
    }
  }

  lemma {:induction false} WorthwhileIsNotDetrimental(coins: seq<Coin>, rate: real)
    ensures forall c :: c in Worthwhile(coins, rate) ==> !Detrimental(c, rate)
  {
    if coins != [] {
      WorthwhileIsNotDetrimental(coins[1..], rate);
    }
  }

  /** How far the failing greedy selector can be from the truth, on every list of coins at a positive rate and on every
      nonempty one at any rate: any choice of the required coins and worthwhile ones misses its own price plus the
      fee of the overhead that the coins it leaves out would have brought. */
  lemma GreedyMissesByOverhead(coins: seq<Coin>, s: Spending, mask: seq<bool>)
    requires |mask| == |Worthwhile(OptionalOf(coins), s.feeRate)|
    requires Greedy(coins, s).InsufficientFunds?
    requires s.feeRate > 0.0 || RequiredOf(coins) + Worthwhile(OptionalOf(coins), s.feeRate) != []
    ensures var w := Worthwhile(OptionalOf(coins), s.feeRate);
            var choice := RequiredOf(coins) + Pick(w, mask, true);
            var extra := ExtraOverhead(Types(RequiredOf(coins) + w), Types(choice));
            extra >= 0 && Amounts(choice) < Price(Types(choice), s) + CalculateFee(s.feeRate, extra)
  {
    var required, w := RequiredOf(coins), Worthwhile(OptionalOf(coins), s.feeRate);
    AllWorthwhileFail(coins, s);
    WorthwhileIsNotDetrimental(OptionalOf(coins), s.feeRate);
    PickedAreThere(w, mask, false);
    PaysItself(Pick(w, mask, false), s.feeRate);
    FeeOfDropped(required, w, mask, s.feeRate, OutputWeights(s.outputs));
    AmountsSplit(required, w, mask);
    if required + w == [] {
      NothingPaysNothing(s);
      assert required + Pick(w, mask, true) == [];
    }
  }

  lemma NothingPaysNothing(s: Spending)
    requires s.feeRate > 0.0
    ensures !Pays([], s)
  {
    PositiveRateFee(s.feeRate, TransactionWeight([], OutputWeights(s.outputs)));
    assert Types([]) == [];
  }

  lemma AmountsSplit(front: seq<Coin>, coins: seq<Coin>, mask: seq<bool>)
    requires |mask| == |coins|
    ensures Amounts(front + coins) == Amounts(front + Pick(coins, mask, true)) + Amounts(Pick(coins, mask, false))
  {
    PickSplits(front, coins, mask, 0.0);
    TallyMeaning(0.0, front + coins);
    TallyMeaning(0.0, front + Pick(coins, mask, true));
    TallyMeaning(0.0, Pick(coins, mask, false));
  }

  // ----- uniform lists -----

  predicate Uniform(coins: seq<Coin>) {
    || (forall c :: c in coins ==> IsSegwit(c.scriptType))
    || (forall c :: c in coins ==> !IsSegwit(c.scriptType))
  }

  lemma {:induction false} CountOfUniform(coins: seq<Coin>)
    requires Uniform(coins)
    ensures SegwitCount(Types(coins)) == if coins != [] && IsSegwit(coins[0].scriptType) then |coins| else 0
  {
    if coins != [] {
      var n := |coins| - 1;
      CountOfUniform(coins[..n]);
      assert coins == coins[..n] + [coins[n]];
      Append(coins[..n], coins[n]);
      if n > 0 {
        assert coins[0] in coins && coins[n] in coins;
      }
    }
  }

  lemma {:induction false} PickedAreThere(coins: seq<Coin>, mask: seq<bool>, keep: bool)
    requires |mask| == |coins|
    ensures |Pick(coins, mask, keep)| <= |coins|
    ensures forall c :: c in Pick(coins, mask, keep) ==> c in coins
  {
    if coins != [] {
      var n := |coins| - 1;
      PickedAreThere(coins[..n], mask[..n], keep);
    }
  }

  lemma NoExtraWhenUniform(all: seq<Coin>, kept: seq<Coin>)
    requires Uniform(all) && |kept| <= |all| < 0xFD && kept != []
    requires forall c :: c in kept ==> c in all
    ensures ExtraOverhead(Types(all), Types(kept)) == 0
  {
    assert all[0] in all && kept[0] in kept;
    CountOfUniform(all);
    CountOfUniform(kept);
  }

  /** On fewer than 253 coins that are all segwit or all legacy the greedy selector is complete: when it
      reports insufficient funds, no choice of the required coins plus worthwhile ones can pay. */
  lemma GreedyComplete(coins: seq<Coin>, s: Spending, mask: seq<bool>)
    requires s.feeRate > 0.0
    requires |mask| == |Worthwhile(OptionalOf(coins), s.feeRate)|
    requires Uniform(coins) && |coins| < 0xFD
    requires Greedy(coins, s).InsufficientFunds?
    ensures !Pays(RequiredOf(coins) + Pick(Worthwhile(OptionalOf(coins), s.feeRate), mask, true), s)
  {
    hide CalculateFee, TransactionWeight, Pick, RequiredOf, OptionalOf, Worthwhile, Greedy, Amounts;
    var required, optional := RequiredOf(coins), OptionalOf(coins);
    var w := Worthwhile(optional, s.feeRate);
    var all, choice := required + w, required + Pick(w, mask, true);
    if choice == [] {
      NothingPaysNothing(s);
    } else {
      PartsOf(coins);
      WorthwhileIsPart(optional, s.feeRate);
      PickedAreThere(w, mask, true);
      assert |multiset(coins)| == |required| + |optional|;
      assert forall c :: c in all ==> c in multiset(coins);
      GreedyMissesByOverhead(coins, s, mask);
      NoExtraWhenUniform(all, choice);
      NoWeightNoFee(s.feeRate);
    }
  }

  lemma NoWeightNoFee(rate: real)
    ensures CalculateFee(rate, 0) == 0
  {
  }

  lemma {:induction false} WorthwhileIsPart(coins: seq<Coin>, rate: real)
    ensures multiset(Worthwhile(coins, rate)) <= multiset(coins)
    ensures |Worthwhile(coins, rate)| <= |coins|
  {
    if coins != [] {
      WorthwhileIsPart(coins[1..], rate);
      assert coins == [coins[0]] + coins[1..];
    }
  }
}
