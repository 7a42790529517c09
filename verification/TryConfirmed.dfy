/** Progressive confirmation filtering (tryconfirmed.rs). */
module TryConfirmed {
  import opened CoinSelection
  import opened Accumulative
  import opened CoinSelect

  datatype ConfFilter = ConfFilter(ownMin: nat, otherMin: nat)

  /** What is known of the coins besides their value, looked up by number. */
  datatype History = History(confirmations: seq<nat>, isOwn: seq<bool>, coinbase: seq<bool>)

  function OwnTrials(own: nat, other: nat): seq<ConfFilter> {
    if own == 0 then [] else [ConfFilter(own, other)] + OwnTrials(own - 1, other)
  }

  function OtherTrials(other: nat): seq<ConfFilter> {
    if other == 0 then [] else [ConfFilter(1, other)] + OtherTrials(other - 1)
  }

  function Trials(own: nat, other: nat): seq<ConfFilter> {
    OwnTrials(own, other) + OtherTrials(if other == 0 then 0 else other - 1) + [ConfFilter(0, 1), ConfFilter(0, 0)]
  }

  /** `generate_trials`. */
  method GenerateTrials(own: nat, other: nat) returns (trials: seq<ConfFilter>)
    ensures trials == Trials(own, other)
  {
    trials := [];
    for i := own downto 0
      invariant OwnTrials(own, other) == trials + OwnTrials(i, other)
    {
      trials := trials + [ConfFilter(i + 1, other)];
    }
    assert trials == OwnTrials(own, other);
    var first := trials;
    var top := if other == 0 then 0 else other - 1;
    for i := top downto 0
      invariant trials + OtherTrials(i) == first + OtherTrials(top)
    {
      trials := trials + [ConfFilter(1, i + 1)];
    }
    assert trials == first + OtherTrials(top);
    trials := trials + [ConfFilter(0, 1)];
    trials := trials + [ConfFilter(0, 0)];
  }

  predicate Passes(c: Coin, i: nat, h: History, f: ConfFilter) {
    c.required
    || (&& !(At(h.coinbase, i, false) && At(h.confirmations, i, 0) < COINBASE_MIN_CONFIRMATIONS)
        && At(h.confirmations, i, 0) >= if At(h.isOwn, i, false) then f.ownMin else f.otherMin)
  }

  /** The coins that pass, looked up by POSITION in the list. */
  function Filtered(coins: seq<Coin>, h: History, f: ConfFilter): seq<Coin> {
    if coins == [] then []
    else
      var n := |coins| - 1;
      Filtered(coins[..n], h, f) + if Passes(coins[n], n, h, f) then [coins[n]] else []
  }

  function ConfirmationsOf(coins: seq<Coin>, h: History): seq<nat> {
    seq(|coins|, i requires 0 <= i < |coins| => At(h.confirmations, coins[i].index, 0))
  }

  function CoinbaseOf(coins: seq<Coin>, h: History): seq<bool> {
    seq(|coins|, i requires 0 <= i < |coins| => At(h.coinbase, coins[i].index, false))
  }

  /** Coin selection on one trial; here the confirmations are looked up by the coins' INDEX. */
  function SelectFiltered(coins: seq<Coin>, s: Spending, h: History): Selection {
    Select(coins, s, ConfirmationsOf(coins, h), CoinbaseOf(coins, h))
  }

  /** The loop of `try_confirmed`, which skips a trial whose list is as long as the last one tried. */
  function TryFrom(coins: seq<Coin>, s: Spending, h: History, trials: seq<ConfFilter>, prevCount: nat): Selection {
    if trials == [] then InsufficientFunds
    else
      var filtered := Filtered(coins, h, trials[0]);
      if filtered == [] || |filtered| == prevCount then TryFrom(coins, s, h, trials[1..], prevCount)
      else
        var r := SelectFiltered(filtered, s, h);
        if r.InsufficientFunds? then TryFrom(coins, s, h, trials[1..], |filtered|) else r
  }

  /** The plain reading: run coin selection on every trial and return the first success. */
  function TryEvery(coins: seq<Coin>, s: Spending, h: History, trials: seq<ConfFilter>): Selection {
    if trials == [] then InsufficientFunds
    else
      var r := SelectFiltered(Filtered(coins, h, trials[0]), s, h);
      if r.InsufficientFunds? then TryEvery(coins, s, h, trials[1..]) else r
  }

  /** `try_confirmed`. */
  method SelectConfirmed(coins: seq<Coin>, s: Spending, h: History, own: nat, other: nat) returns (r: Selection)
    ensures r == TryFrom(coins, s, h, Trials(own, other), 0)
  {
    hide Select, Filtered;
    var trials := GenerateTrials(own, other);
    var prevCount: nat := 0;
    for i := 0 to |trials|
      invariant TryFrom(coins, s, h, trials, 0) == TryFrom(coins, s, h, trials[i..], prevCount)
    {
      assert trials[i..][1..] == trials[i + 1..];
      var filtered := Filtered(coins, h, trials[i]);
      if filtered == [] {
        continue;
      }
      if |filtered| == prevCount {
        continue;
      }
      prevCount := |filtered|;
      r := SelectCoins(filtered, s, ConfirmationsOf(filtered, h), CoinbaseOf(filtered, h));
      if !r.InsufficientFunds? {
        return;
      }
    }
    r := InsufficientFunds;
  }

  // ----- what a trial sees -----

  /** A coin at position `i` passes: it is required, or not coinbase with fewer than 100 confirmations there, and
      confirmed as the trial asks of own or foreign coins. */
  ghost predicate Admitted(c: Coin, i: nat, h: History, f: ConfFilter) {
    var confirmations := if i < |h.confirmations| then h.confirmations[i] else 0;
    || c.required
    || ((i < |h.coinbase| && h.coinbase[i] ==> confirmations >= 100)
        && confirmations >= if i < |h.isOwn| && h.isOwn[i] then f.ownMin else f.otherMin)
  }

  lemma PassesExactly(c: Coin, i: nat, h: History, f: ConfFilter)
    ensures Passes(c, i, h, f) <==> Admitted(c, i, h, f)
  {
  }

  /** A trial sees exactly the coins that pass, in order. */
  lemma {:induction false} FilteredExactly(coins: seq<Coin>, h: History, f: ConfFilter) returns (mask: seq<bool>)
    ensures |mask| == |coins| && Filtered(coins, h, f) == Pick(coins, mask, true)
    ensures forall i :: 0 <= i < |coins| ==> (mask[i] <==> Admitted(coins[i], i, h, f))
  {
    hide Filtered, Passes, Admitted;
    mask := [];
    if coins == [] {
      NothingFiltered(h, f);
    } else {
      var n := |coins| - 1;
      var front := FilteredExactly(coins[..n], h, f);
      FilteredLast(coins, h, f);
      PassesExactly(coins[n], n, h, f);
      mask := front + [Passes(coins[n], n, h, f)];
      assert mask[..n] == front;
    }
  }

  /** A trial looks the confirmations up by the coins' own index once it has filtered. */
  lemma IndexedLookup(coins: seq<Coin>, h: History, i: nat)
    requires i < |coins|
    ensures MatureAt(i, ConfirmationsOf(coins, h), CoinbaseOf(coins, h))
            <==> var k := coins[i].index;
                 k < |h.coinbase| && h.coinbase[k] ==> k < |h.confirmations| && h.confirmations[k] >= 100
  {
  }

  // ----- the trials only relax -----

  predicate Relaxes(a: ConfFilter, b: ConfFilter) {
    b.ownMin <= a.ownMin && b.otherMin <= a.otherMin
  }

  ghost predicate Relaxing(trials: seq<ConfFilter>) {
    forall i, j :: 0 <= i < j < |trials| ==> Relaxes(trials[i], trials[j])
  }

  lemma {:induction false} OwnTrialsShape(own: nat, other: nat)
    ensures |OwnTrials(own, other)| == own
    ensures forall i :: 0 <= i < own ==> OwnTrials(own, other)[i] == ConfFilter(own - i, other)
  {
    if own > 0 {
      OwnTrialsShape(own - 1, other);
    }
  }

  lemma {:induction false} OtherTrialsShape(other: nat)
    ensures |OtherTrials(other)| == other
    ensures forall i :: 0 <= i < other ==> OtherTrials(other)[i] == ConfFilter(1, other - i)
  {
    if other > 0 {
      OtherTrialsShape(other - 1);
    }
  }

  /** Which trials are made, and in which order: own coins from `own` confirmations down to 1 while others need `other`,
      then others from one less down to 1, then (0, 1) and (0, 0). */
  lemma TrialsExactly(own: nat, other: nat)
    ensures var trials, more := Trials(own, other), if other > 1 then other - 1 else 0;
            && |trials| == own + more + 2
            && (forall i :: 0 <= i < own ==> trials[i] == ConfFilter(own - i, other))
            && (forall i :: own <= i < own + more ==> trials[i] == ConfFilter(1, other - 1 - (i - own)))
            && trials[own + more] == ConfFilter(0, 1) && trials[own + more + 1] == ConfFilter(0, 0)
  {
    OwnTrialsShape(own, other);
    OtherTrialsShape(if other == 0 then 0 else other - 1);
  }

  /** With both thresholds positive each step but the last two lowers one threshold by one and keeps the other. */
  lemma TrialsStepByOne(own: nat, other: nat, i: nat)
    requires own >= 1 && other >= 1 && i + 1 < own + other - 1
    ensures |Trials(own, other)| == own + other + 1
    ensures var a, b := Trials(own, other)[i], Trials(own, other)[i + 1];
            || (b.ownMin == a.ownMin - 1 && b.otherMin == a.otherMin)
            || (b.ownMin == a.ownMin && b.otherMin == a.otherMin - 1)
  {
    TrialsExactly(own, other);
    hide Trials;
  }

  /** Exactly when each trial admits everything its predecessors did. */
  lemma TrialsRelaxExactly(own: nat, other: nat)
    ensures Relaxing(Trials(own, other)) <==> other >= 1 || own == 0
  {
    OwnTrialsShape(own, other);
    var top := if other == 0 then 0 else other - 1;
    OtherTrialsShape(top);
    var trials := Trials(own, other);
    if other == 0 && own > 0 {
      assert trials[own - 1] == ConfFilter(1, 0) && trials[own] == ConfFilter(0, 1);
      assert !Relaxes(trials[own - 1], trials[own]);
    }
  }

  // ----- skipping by length is sound -----

  lemma {:induction false} FilteredNests(coins: seq<Coin>, h: History, a: ConfFilter, b: ConfFilter)
    requires Relaxes(a, b)
    ensures |Filtered(coins, h, a)| <= |Filtered(coins, h, b)|
    ensures |Filtered(coins, h, a)| == |Filtered(coins, h, b)| ==> Filtered(coins, h, a) == Filtered(coins, h, b)
  {
    if coins != [] {
      FilteredNests(coins[..|coins| - 1], h, a, b);
    }
  }

  lemma {:induction false} SkipIsSoundFrom(coins: seq<Coin>, s: Spending, h: History, trials: seq<ConfFilter>,
                                           last: ConfFilter, prevCount: nat)
    requires Relaxing(trials) && forall i :: 0 <= i < |trials| ==> Relaxes(last, trials[i])
    requires prevCount == |Filtered(coins, h, last)|
    requires SelectFiltered(Filtered(coins, h, last), s, h).InsufficientFunds?
    ensures TryFrom(coins, s, h, trials, prevCount) == TryEvery(coins, s, h, trials)
    decreases |trials|
  {
    hide Select, Filtered;
    if trials != [] {
      var filtered := Filtered(coins, h, trials[0]);
      FilteredNests(coins, h, last, trials[0]);
      if filtered == [] || |filtered| == prevCount {
        SkipIsSoundFrom(coins, s, h, trials[1..], last, prevCount);
      } else if SelectFiltered(filtered, s, h).InsufficientFunds? {
        SkipIsSoundFrom(coins, s, h, trials[1..], trials[0], |filtered|);
      }
    }
  }

  lemma {:induction false} SkipIsSound(coins: seq<Coin>, s: Spending, h: History, trials: seq<ConfFilter>)
    requires Relaxing(trials)
    ensures TryFrom(coins, s, h, trials, 0) == TryEvery(coins, s, h, trials)
    decreases |trials|
  {
    hide Select, Filtered;
    if trials != [] {
      var filtered := Filtered(coins, h, trials[0]);
      if filtered == [] {
        NothingSelected(s, h);
        SkipIsSound(coins, s, h, trials[1..]);
      } else if SelectFiltered(filtered, s, h).InsufficientFunds? {
        SkipIsSoundFrom(coins, s, h, trials[1..], trials[0], |filtered|);
      }
    }
  }

  lemma NothingSelected(s: Spending, h: History)
    ensures SelectFiltered([], s, h).InsufficientFunds?
  {
    hide Select;
    NothingFromNothing(s, ConfirmationsOf([], h), CoinbaseOf([], h));
  }

  /** With `other >= 1` (or `own == 0`) `try_confirmed` returns what running every trial would. */
  lemma TryConfirmedIsTryEvery(coins: seq<Coin>, s: Spending, h: History, own: nat, other: nat)
    requires other >= 1 || own == 0
    ensures TryFrom(coins, s, h, Trials(own, other), 0) == TryEvery(coins, s, h, Trials(own, other))
  {
    TrialsRelaxExactly(own, other);
    SkipIsSound(coins, s, h, Trials(own, other));
  }

  // ----- what gets selected -----

  /** The trial that succeeded. */
  lemma {:induction false} SomeTrialSucceeded(coins: seq<Coin>, s: Spending, h: History, trials: seq<ConfFilter>,
                                              prevCount: nat)
    returns (f: ConfFilter)
    requires !TryFrom(coins, s, h, trials, prevCount).InsufficientFunds?
    ensures f in trials && TryFrom(coins, s, h, trials, prevCount) == SelectFiltered(Filtered(coins, h, f), s, h)
    decreases |trials|
  {
    hide Select, Filtered;
    var filtered := Filtered(coins, h, trials[0]);
    f := trials[0];
    if filtered == [] || |filtered| == prevCount {
      f := SomeTrialSucceeded(coins, s, h, trials[1..], prevCount);
    } else if SelectFiltered(filtered, s, h).InsufficientFunds? {
      f := SomeTrialSucceeded(coins, s, h, trials[1..], |filtered|);
    }
  }

  lemma {:induction false} RequiredCounts(coins: seq<Coin>, c: Coin)
    ensures multiset(RequiredOf(coins))[c] == if c.required then multiset(coins)[c] else 0
  {
    if coins != [] {
      RequiredCounts(coins[1..], c);
      assert coins == [coins[0]] + coins[1..];
    }
  }

  lemma NothingFiltered(h: History, f: ConfFilter)
    ensures Filtered([], h, f) == []
  {
  }

  lemma FilteredLast(coins: seq<Coin>, h: History, f: ConfFilter)
    requires coins != []
    ensures var n := |coins| - 1;
            Filtered(coins, h, f)
            == Filtered(coins[..n], h, f) + if Passes(coins[n], n, h, f) then [coins[n]] else []
    ensures coins[|coins| - 1].required ==> Passes(coins[|coins| - 1], |coins| - 1, h, f)
  {
  }

  lemma {:induction false} FilteredCounts(coins: seq<Coin>, h: History, f: ConfFilter, c: Coin)
    ensures multiset(Filtered(coins, h, f))[c] <= multiset(coins)[c]
    ensures c.required ==> multiset(Filtered(coins, h, f))[c] == multiset(coins)[c]
  {
    hide Filtered, Passes;
    if coins == [] {
      assert Filtered(coins, h, f) == [] by { NothingFiltered(h, f); }
    } else {
      var n := |coins| - 1;
      FilteredCounts(coins[..n], h, f, c);
      FilteredLast(coins, h, f);
      CountFront(coins, c);
      CountLast(Filtered(coins[..n], h, f), coins[n], Passes(coins[n], n, h, f), c);
    }
  }

  lemma {:induction false} FilteredPassed(coins: seq<Coin>, h: History, f: ConfFilter, c: Coin) returns (i: nat)
    requires c in Filtered(coins, h, f)
    ensures i < |coins| && coins[i] == c && Passes(c, i, h, f)
  {
    var n := |coins| - 1;
    if c in Filtered(coins[..n], h, f) {
      i := FilteredPassed(coins[..n], h, f, c);
    } else {
      i := n;
    }
  }

  lemma AccountsOfFiltered(chosen: seq<Coin>, coins: seq<Coin>, s: Spending, h: History, f: ConfFilter, r: Selection)
    requires Accounts(chosen, Filtered(coins, h, f), s, r)
    ensures Accounts(chosen, coins, s, r)
  {
    hide Filtered, FinalizeCoins, RequiredOf;
    forall c ensures multiset(RequiredOf(coins))[c] <= multiset(chosen)[c] <= multiset(coins)[c] {
      FilteredCounts(coins, h, f, c);
      RequiredCounts(coins, c);
      RequiredCounts(Filtered(coins, h, f), c);
    }
  }

  /** The coins a fixed payment selects in one trial: accounted for, and each passed the filter at the position it has
      in the list. */
  lemma TrialAccounts(coins: seq<Coin>, s: Spending, h: History, f: ConfFilter) returns (chosen: seq<Coin>)
    requires !HasSendMax(s.outputs) && !SelectFiltered(Filtered(coins, h, f), s, h).InsufficientFunds?
    ensures Accounts(chosen, coins, s, SelectFiltered(Filtered(coins, h, f), s, h))
    ensures forall c :: c in chosen ==> exists i :: 0 <= i < |coins| && coins[i] == c && Passes(c, i, h, f)
  {
    hide Select, Filtered, FinalizeCoins, RequiredOf;
    var filtered := Filtered(coins, h, f);
    chosen := SelectAccounts(filtered, s, ConfirmationsOf(filtered, h), CoinbaseOf(filtered, h));
    AccountsOfFiltered(chosen, coins, s, h, f, SelectFiltered(filtered, s, h));
    forall c | c in chosen ensures exists i :: 0 <= i < |coins| && coins[i] == c && Passes(c, i, h, f) {
      assert c in multiset(filtered);
      var i := FilteredPassed(coins, h, f, c);
    }
  }

  /** The coins of a successful run come from one trial, and each passed its filter. */
  lemma SelectedPassed(coins: seq<Coin>, s: Spending, h: History, trials: seq<ConfFilter>)
    returns (f: ConfFilter, chosen: seq<Coin>)
    requires !HasSendMax(s.outputs) && !TryFrom(coins, s, h, trials, 0).InsufficientFunds?
    ensures f in trials && TryFrom(coins, s, h, trials, 0) == SelectFiltered(Filtered(coins, h, f), s, h)
    ensures Accounts(chosen, coins, s, TryFrom(coins, s, h, trials, 0))
    ensures forall c :: c in chosen ==> exists i :: 0 <= i < |coins| && coins[i] == c && Passes(c, i, h, f)
  {
    hide SelectFiltered, Filtered, Accounts, TryFrom, Passes;
    f := SomeTrialSucceeded(coins, s, h, trials, 0);
    chosen := TrialAccounts(coins, s, h, f);
  }

  /** `j` is the first trial that succeeds, hence the strictest. */
  ghost predicate FirstToSucceed(coins: seq<Coin>, s: Spending, h: History, trials: seq<ConfFilter>, j: nat) {
    && j < |trials|
    && !SelectFiltered(Filtered(coins, h, trials[j]), s, h).InsufficientFunds?
    && forall i :: 0 <= i < j ==> SelectFiltered(Filtered(coins, h, trials[i]), s, h).InsufficientFunds?
  }

  /** Running every trial returns what the first success selects. */
  lemma {:induction false} FirstSuccess(coins: seq<Coin>, s: Spending, h: History, trials: seq<ConfFilter>, j: nat)
    requires FirstToSucceed(coins, s, h, trials, j)
    ensures TryEvery(coins, s, h, trials) == SelectFiltered(Filtered(coins, h, trials[j]), s, h)
    decreases |trials|
  {
    hide SelectFiltered, Filtered;
    if j > 0 {
      FirstSuccess(coins, s, h, trials[1..], j - 1);
    }
  }

  /** If every trial fails so does the run. */
  lemma {:induction false} NoSuccess(coins: seq<Coin>, s: Spending, h: History, trials: seq<ConfFilter>)
    ensures TryEvery(coins, s, h, trials).InsufficientFunds?
            <==> forall i :: 0 <= i < |trials| ==>
                               SelectFiltered(Filtered(coins, h, trials[i]), s, h).InsufficientFunds?
    decreases |trials|
  {
    hide SelectFiltered, Filtered;
    if trials != [] {
      NoSuccess(coins, s, h, trials[1..]);
      assert trials == [trials[0]] + trials[1..];
    }
  }

  /** Confirmation safety.  When every coin sits at the position its index names, each coin that a trial selects without
      its being required has the confirmations the trial asks of it, and none is immature coinbase. */
  lemma ConfirmationSafety(coins: seq<Coin>, s: Spending, h: History, f: ConfFilter) returns (chosen: seq<Coin>)
    requires !HasSendMax(s.outputs) && !SelectFiltered(Filtered(coins, h, f), s, h).InsufficientFunds?
    requires forall i :: 0 <= i < |coins| ==> coins[i].index == i
    ensures Accounts(chosen, coins, s, SelectFiltered(Filtered(coins, h, f), s, h))
    ensures forall c :: c in chosen && !c.required ==>
                          var confirmations := At(h.confirmations, c.index, 0);
                          && confirmations >= (if At(h.isOwn, c.index, false) then f.ownMin else f.otherMin)
                          && !(At(h.coinbase, c.index, false) && confirmations < COINBASE_MIN_CONFIRMATIONS)
  {
    hide Accounts, SelectFiltered, Filtered;
    chosen := TrialAccounts(coins, s, h, f);
  }
}
