/** What "not enough funds" means: when the engine refuses a fixed payment, and what the wallet could then have paid. */
module ComposeCompleteness {
  import opened Weight
  import opened CoinSelection
  import opened Accumulative
  import opened GreedyCompleteness
  import opened CoinSelect
  import opened TryConfirmed
  import opened Permutation
  import opened Compose
  import opened ComposeSoundness

  /** The coins the last trial admits: everything required or, at its position, not immature coinbase. */
  function Open(req: Request): seq<Coin> {
    Filtered(SortedCoins(req), HistoryOf(req), ConfFilter(0, 0))
  }

  /** `chosen` is a way to pay from these coins: all required ones, others worth at least their own fee. */
  ghost predicate Affords(coins: seq<Coin>, s: Spending, chosen: seq<Coin>) {
    && multiset(RequiredOf(coins)) <= multiset(chosen) <= multiset(coins)
    && (forall c :: c in chosen && !c.required ==> !Detrimental(c, s.feeRate))
    && Pays(chosen, s)
  }

  /** The coins on which the greedy selector is complete. */
  ghost predicate Regular(coins: seq<Coin>, s: Spending) {
    || (Uniform(coins) && |coins| < 0xFD)
    || Covers(Types(RequiredOf(coins)), Types(Worthwhile(OptionalOf(coins), s.feeRate)), s.feeRate,
              OutputWeights(s.outputs))
  }

  // ----- a collection of coins as a choice by mask -----

  lemma Without(coins: seq<Coin>, c: Coin) returns (rest: seq<Coin>)
    requires c in coins
    ensures multiset(coins) == multiset(rest) + multiset{c}
  {
    var i :| 0 <= i < |coins| && coins[i] == c;
    rest := coins[..i] + coins[i + 1..];
    assert coins == coins[..i] + [c] + coins[i + 1..];
  }

  lemma Cancels(a: multiset<Coin>, b: multiset<Coin>, c: Coin)
    ensures a + multiset{c} <= b + multiset{c} ==> a <= b
    ensures c !in a && a <= b + multiset{c} ==> a <= b
  {
    if a + multiset{c} <= b + multiset{c} {
      forall x ensures a[x] <= b[x] {
        assert (a + multiset{c})[x] <= (b + multiset{c})[x];
      }
    }
    if c !in a && a <= b + multiset{c} {
      forall x ensures a[x] <= b[x] {
        assert a[x] <= (b + multiset{c})[x];
      }
    }
  }

  lemma PickFront(coins: seq<Coin>, mask: seq<bool>, last: bool)
    requires |coins| == |mask| + 1
    ensures multiset(Pick(coins, mask + [last], true))
            == multiset(Pick(coins[..|mask|], mask, true)) + if last then multiset{coins[|mask|]} else multiset{}
  {
    assert (mask + [last])[..|mask|] == mask;
  }

  lemma {:induction false} MaskFor(part: seq<Coin>, coins: seq<Coin>) returns (mask: seq<bool>)
    requires multiset(part) <= multiset(coins)
    ensures |mask| == |coins| && multiset(Pick(coins, mask, true)) == multiset(part)
    decreases |coins|
  {
    if coins == [] {
      mask := [];
      assert |multiset(part)| <= |multiset(coins)|;
    } else {
      hide Pick;
      var n := |coins| - 1;
      var c, front := coins[n], coins[..n];
      assert coins == front + [c];
      if c in part {
        var rest := Without(part, c);
        Cancels(multiset(rest), multiset(front), c);
        mask := MaskFor(rest, front);
        PickFront(coins, mask, true);
        mask := mask + [true];
      } else {
        Cancels(multiset(part), multiset(front), c);
        mask := MaskFor(part, front);
        PickFront(coins, mask, false);
        mask := mask + [false];
      }
    }
  }

  lemma {:induction false} OptionalCounts(coins: seq<Coin>, c: Coin)
    ensures multiset(OptionalOf(coins))[c] == if c.required then 0 else multiset(coins)[c]
  {
    if coins != [] {
      OptionalCounts(coins[1..], c);
      assert coins == [coins[0]] + coins[1..];
    }
  }

  lemma {:induction false} WorthwhileCounts(coins: seq<Coin>, rate: real, c: Coin)
    ensures multiset(Worthwhile(coins, rate))[c] == if Detrimental(c, rate) then 0 else multiset(coins)[c]
  {
    hide Detrimental;
    if coins != [] {
      WorthwhileCounts(coins[1..], rate, c);
      assert coins == [coins[0]] + coins[1..];
    }
  }

  lemma PaysPermutes(a: seq<Coin>, b: seq<Coin>, s: Spending)
    requires multiset(a) == multiset(b)
    ensures Pays(a, s) == Pays(b, s)
  {
    hide TransactionWeight, CalculateFee, Sum;
    AmountsAsTotal(a);
    AmountsAsTotal(b);
    TotalPermutes(CoinAmount, a, b);
    var typeOf := (c: Coin) => c.scriptType;
    MapPermutes(typeOf, a, b);
    assert Map(typeOf, a) == Types(a) && Map(typeOf, b) == Types(b);
    WeightPermutes(Types(a), Types(b), OutputWeights(s.outputs));
  }

  /** Every way to pay is one of the choices the greedy selector is measured against. */
  lemma AffordableByMask(coins: seq<Coin>, s: Spending, chosen: seq<Coin>) returns (mask: seq<bool>)
    requires Affords(coins, s, chosen)
    ensures |mask| == |Worthwhile(OptionalOf(coins), s.feeRate)| && Pays(Choice(coins, s, mask), s)
  {
    hide Pays, RequiredOf, OptionalOf, Worthwhile, Pick, Detrimental;
    var w := Worthwhile(OptionalOf(coins), s.feeRate);
    forall c
      ensures multiset(OptionalOf(chosen))[c] <= multiset(w)[c]
      ensures multiset(RequiredOf(chosen))[c] == multiset(RequiredOf(coins))[c]
    {
      SameCounts(coins, s, chosen, c);
    }
    mask := MaskFor(OptionalOf(chosen), w);
    PartsOf(chosen);
    assert multiset(RequiredOf(chosen)) == multiset(RequiredOf(coins));
    assert multiset(Choice(coins, s, mask)) == multiset(chosen);
    PaysPermutes(Choice(coins, s, mask), chosen, s);
  }

  lemma SameCounts(coins: seq<Coin>, s: Spending, chosen: seq<Coin>, c: Coin)
    requires Affords(coins, s, chosen)
    ensures multiset(OptionalOf(chosen))[c] <= multiset(Worthwhile(OptionalOf(coins), s.feeRate))[c]
    ensures multiset(RequiredOf(chosen))[c] == multiset(RequiredOf(coins))[c]
  {
    hide Pays, RequiredOf, OptionalOf, Worthwhile, Detrimental;
    OptionalCounts(chosen, c);
    OptionalCounts(coins, c);
    WorthwhileCounts(OptionalOf(coins), s.feeRate, c);
    RequiredCounts(chosen, c);
    RequiredCounts(coins, c);
    assert c in chosen <==> multiset(chosen)[c] > 0;
  }

  // ----- refused payments -----

  /** The last trial is among those that failed, and in it the greedy selector. */
  lemma RefusedByGreedy(req: Request)
    requires !WantsMax(req) && Chosen(req).InsufficientFunds?
    ensures Greedy(Open(req), SpendingOf(req)).InsufficientFunds?
  {
    hide TryFrom, TryEvery, SortedCoins, Filtered, Greedy;
    var coins, s, h, trials := SortedCoins(req), SpendingOf(req), HistoryOf(req), Trials(1, 6);
    MaxMatches(req);
    TryConfirmedIsTryEvery(coins, s, h, 1, 6);
    NoSuccess(coins, s, h, trials);
    var last := |trials| - 1;
    assert trials[last] == ConfFilter(0, 0);
    assert SelectFiltered(Filtered(coins, h, trials[last]), s, h).InsufficientFunds?;
    if BranchAndBound.ExactMatch(Open(req), s).Some? {
      FoundIsSuccess(Open(req), s);
    }
  }

  lemma FoundIsSuccess(coins: seq<Coin>, s: Spending)
    requires BranchAndBound.ExactMatch(coins, s).Some?
    ensures BranchAndBound.ExactMatch(coins, s).value.Success?
  {
    hide FinalizeCoins;
    var chosen := BranchAndBound.ExactMatchAccounts(coins, s);
  }

  /** A refused payment could not have been made: no way to pay exists among the coins the last trial admits. */
  lemma RefusedMeansTooPoor(req: Request, chosen: seq<Coin>)
    requires !WantsMax(req) && req.feeRate > 0.0 && Regular(Open(req), SpendingOf(req))
    requires Chosen(req).InsufficientFunds?
    ensures !Affords(Open(req), SpendingOf(req), chosen)
  {
    hide Chosen, Open, Pays, Greedy, Covers, Uniform, Affords, Pick, RequiredOf, OptionalOf, Worthwhile;
    var coins, s := Open(req), SpendingOf(req);
    RefusedByGreedy(req);
    if Affords(coins, s, chosen) {
      var mask := AffordableByMask(coins, s, chosen);
      if Uniform(coins) && |coins| < 0xFD {
        GreedyComplete(coins, s, mask);
      } else {
        CoversSuffices(coins, s);
        NothingPaysNothing(s);
      }
    }
  }

  lemma {:induction false} RelaxedCounts(coins: seq<Coin>, h: History, a: ConfFilter, b: ConfFilter, c: Coin)
    requires Relaxes(a, b)
    ensures multiset(Filtered(coins, h, a))[c] <= multiset(Filtered(coins, h, b))[c]
  {
    if coins != [] {
      RelaxedCounts(coins[..|coins| - 1], h, a, b, c);
    }
  }

  /** What a payment spends is a part of the coins the last trial admits that holds the required ones and pays. */
  lemma SpentAreOpen(req: Request) returns (chosen: seq<Coin>)
    requires !WantsMax(req) && !Chosen(req).InsufficientFunds?
    ensures multiset(RequiredOf(Open(req))) <= multiset(chosen) <= multiset(Open(req)) && Pays(chosen, SpendingOf(req))
  {
    hide TryFrom, SortedCoins, Filtered, RequiredOf, FinalizeCoins, Pays, Select;
    var coins, s, h := SortedCoins(req), SpendingOf(req), HistoryOf(req);
    MaxMatches(req);
    var f := SomeTrialSucceeded(coins, s, h, Trials(1, 6), 0);
    var filtered := Filtered(coins, h, f);
    chosen := SelectAccounts(filtered, s, ConfirmationsOf(filtered, h), CoinbaseOf(filtered, h));
    forall c ensures multiset(RequiredOf(Open(req)))[c] <= multiset(chosen)[c] <= multiset(Open(req))[c] {
      RelaxedCounts(coins, h, f, ConfFilter(0, 0), c);
      FilteredCounts(coins, h, f, c);
      FilteredCounts(coins, h, ConfFilter(0, 0), c);
      RequiredCounts(filtered, c);
      RequiredCounts(Open(req), c);
      assert multiset(RequiredOf(filtered))[c] <= multiset(chosen)[c] <= multiset(filtered)[c];
    }
  }

  /** Where every coin the last trial admits is required or worth its own fee, a payment is refused exactly when
      there is no way to pay it. */
  lemma RefusedExactly(req: Request)
    requires !WantsMax(req) && req.feeRate > 0.0 && Regular(Open(req), SpendingOf(req))
    requires forall c :: c in Open(req) && !c.required ==> !Detrimental(c, req.feeRate)
    ensures Chosen(req).InsufficientFunds? <==> !exists chosen :: Affords(Open(req), SpendingOf(req), chosen)
  {
    hide Chosen, Open, Pays, Regular, RequiredOf, Detrimental;
    if Chosen(req).InsufficientFunds? {
      forall chosen ensures !Affords(Open(req), SpendingOf(req), chosen) {
        RefusedMeansTooPoor(req, chosen);
      }
    } else {
      var chosen := SpentAreOpen(req);
      forall c | c in chosen && !c.required ensures !Detrimental(c, req.feeRate) {
        assert c in multiset(chosen);
        assert c in multiset(Open(req));
      }
      assert Affords(Open(req), SpendingOf(req), chosen);
    }
  }
}
