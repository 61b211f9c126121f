/** Conservation of balances. */
module WsvLaws {
  import opened Arith
  import opened Currency
  import opened MapSum
  import opened World
  import opened Wrappers
  import opened WsvSpec

  // ---------- Totals ----------

  ghost function Balances(holdings: map<string, seq<Asset>>, key: string): map<string, nat> {
    map p | p in holdings :: Balance(holdings[p], key)
  }

  /** The supply of an asset: what all accounts hold together. */
  ghost function Total(s: State, key: string): nat {
    Sum(Balances(s.holdings, key))
  }

  lemma TotalUpdate(s: State, account: string, l: seq<Asset>, key: string)
    ensures Total(s.(holdings := s.holdings[account := l]), key)
         == Total(s, key) - Balance(ListOf(s.holdings, account), key) + Balance(l, key)
  {
    assert Balances(s.holdings[account := l], key) == Balances(s.holdings, key)[account := Balance(l, key)];
    SumUpdate(Balances(s.holdings, key), account, Balance(l, key));
  }

  lemma BalanceBelowTotal(s: State, account: string, key: string)
    ensures Balance(ListOf(s.holdings, account), key) <= Total(s, key)
  {
    if account in s.holdings {
      SumTake(Balances(s.holdings, key), account);
    }
  }

  lemma TotalAfterSet(s: State, account: string, i: nat, amount: U64, key: string)
    requires Good(s) && i < |ListOf(s.holdings, account)|
    ensures var a := ListOf(s.holdings, account)[i];
      Total(SetAmount(s, account, i, amount), key) == Total(s, key) + if key == Key(a) then amount - a.amount else 0
  {
    var l := ListOf(s.holdings, account);
    var a := l[i].(amount := amount);
    ReplaceKeepsOrder(l, i, a, key);
    LookupIsExact(l, Key(a), i);
    TotalUpdate(s, account, l[i := a], key);
  }

  // ---------- One precision for each asset ----------

  /** Every record of an asset has the precision prec gives for it, at most 18. */
  ghost predicate Uniform(s: State, prec: string -> nat) {
    forall p, i :: p in s.holdings && 0 <= i < |s.holdings[p]| ==> Fits(s.holdings[p][i], prec)
  }

  ghost predicate Fits(a: Asset, prec: string -> nat) {
    a.precision == prec(Key(a)) <= MAX_PRECISION
  }

  lemma RecordFits(s: State, prec: string -> nat, account: string, i: nat)
    requires Uniform(s, prec) && i < |ListOf(s.holdings, account)|
    ensures Fits(ListOf(s.holdings, account)[i], prec)
  {
  }

  // ---------- Adding, removing, moving ----------

  lemma AddKeepsUniform(s: State, prec: string -> nat, account: string, a: Asset)
    requires Uniform(s, prec) && Fits(a, prec)
    ensures AddCurrency(s, account, a).1 == Done && Uniform(AddCurrency(s, account, a).0, prec)
  {
    var l := ListOf(s.holdings, account);
    match Find(s, account, Key(a))
    case None =>
      forall i | 0 <= i < |Put(l, a)|
        ensures Fits(Put(l, a)[i], prec)
      {
        PutHolds(l, a, i);
      }
    case Some(i) => RecordFits(s, prec, account, i);
  }

  /** An addition succeeds and touches the supply of that asset alone. If the asset is created, exactly
      the amount is added if and only if the account's balance does not pass 2^64. If it is not, the
      amount replaces what the account held. */
  lemma AddConserves(s: State, prec: string -> nat, account: string, a: Asset, key: string)
    requires Good(s) && Uniform(s, prec) && Fits(a, prec)
    ensures var (s', out) := AddCurrency(s, account, a);
            var held := Balance(ListOf(s.holdings, account), Key(a));
      && out == Done && Uniform(s', prec)
      && (key != Key(a) ==> Total(s', key) == Total(s, key))
      && (Key(a) in s.created ==>
            (Total(s', Key(a)) == Total(s, Key(a)) + a.amount <==> held + a.amount < TWO_TO_THE_64))
      && (Key(a) !in s.created ==> Total(s', Key(a)) == Total(s, Key(a)) + a.amount - held)
  {
    hide Sorted, Total, Uniform, Put, Of;
    AddKeepsUniform(s, prec, account, a);
    var l := ListOf(s.holdings, account);
    match Find(s, account, Key(a))
    case None =>
      PutBalance(l, a, key);
      PutBalance(l, a, Key(a));
      TotalUpdate(s, account, Put(l, a), key);
      TotalUpdate(s, account, Put(l, a), Key(a));
    case Some(i) =>
      RecordFits(s, prec, account, i);
      SumAmount(l[i].amount, a.amount, a.precision);
      var sum := Plus(Of(l[i].amount, l[i].precision), Of(a.amount, a.precision)).amount;
      TotalAfterSet(s, account, i, sum, key);
      TotalAfterSet(s, account, i, sum, Key(a));
  }

  lemma SumAmount(x: U64, y: U64, precision: nat)
    requires precision <= MAX_PRECISION
    ensures Plus(Of(x, precision), Of(y,
          precision)).amount == if x + y < TWO_TO_THE_64 then x + y else x + y - TWO_TO_THE_64
  {
  }

  /** A removal succeeds exactly when the asset is created and the account holds it and at least that
      amount of it; it then takes exactly the amount from the supply. Otherwise it changes nothing. */
  lemma RemoveConserves(s: State, prec: string -> nat, account: string, a: Asset, key: string)
    requires Good(s) && Uniform(s, prec) && Fits(a, prec)
    ensures var (s', out) := RemoveCurrency(s, account, a);
            var l := ListOf(s.holdings, account);
      && Uniform(s', prec)
      && (out == Done <==> Key(a) in s.created && IndexOf(l, Key(a)).Some? && a.amount <= Balance(l, Key(a)))
      && (out == Done ==> Balance(ListOf(s'.holdings, account), Key(a)) == Balance(l, Key(a)) - a.amount)
      && (if out == Done then Total(s', key) == Total(s, key) - (if key == Key(a) then a.amount else 0) else s' == s)
  {
    ListIsSorted(s, account);
    var l := ListOf(s.holdings, account);
    match Find(s, account, Key(a))
    case None =>
    case Some(i) =>
      RecordFits(s, prec, account, i);
      OrderIsAmountOrder(l[i].amount, a.amount, a.precision);
      if a.amount <= l[i].amount {
        var rest := Minus(Of(l[i].amount, l[i].precision), Of(a.amount, a.precision)).amount;
        assert rest == l[i].amount - a.amount;
        TotalAfterSet(s, account, i, rest, key);
        ReplaceKeepsOrder(l, i, l[i].(amount := rest), Key(a));
      }
  }

  /** A transfer never changes any supply, its own sender and receiver being the same or not, and the
      receiver having the asset or not; and when it throws it changes nothing at all. */
  lemma TransferConserves(s: State, prec: string -> nat, sender: string, receiver: string, a: Asset, key: string)
    requires Good(s) && Uniform(s, prec) && Fits(a, prec) && Total(s, Key(a)) < TWO_TO_THE_64
    ensures var (s', out) := Transfer(s, sender, receiver, a);
      && Uniform(s', prec)
      && Total(s', key) == Total(s, key)
      && (out.Failed? ==> s' == s)
      && (out == Done <==> Key(a) in s.created && IndexOf(ListOf(s.holdings, sender), Key(a)).Some?
                           && a.amount <= Balance(ListOf(s.holdings, sender), Key(a)))
  {
    RemoveConserves(s, prec, sender, a, key);
    RemoveConserves(s, prec, sender, a, Key(a));
    var (s1, out) := RemoveCurrency(s, sender, a);
    if out == Done {
      RemoveKeepsGood(s, sender, a);
      AddConserves(s1, prec, receiver, a, key);
      BalanceBelowTotal(s1, receiver, Key(a));
    }
  }

  lemma BalanceAt(l: seq<Asset>, key: string, i: nat)
    requires IndexOf(l, key) == Some(i)
    ensures Balance(l, key) == l[i].amount
  {
  }

  lemma AddAsUpdate(s: State, prec: string -> nat, account: string, a: Asset) returns (l: seq<Asset>)
    requires Good(s) && Uniform(s, prec) && Key(a) in s.created && Fits(a, prec)
    requires Balance(ListOf(s.holdings, account), Key(a)) + a.amount < TWO_TO_THE_64
    ensures AddCurrency(s, account, a).0.holdings == s.holdings[account := l]
    ensures Balance(l, Key(a)) == Balance(ListOf(s.holdings, account), Key(a)) + a.amount
  {
    hide Sorted, Plus, Of, Put;
    var was := ListOf(s.holdings, account);
    match Find(s, account, Key(a))
    case None =>
      PutBalance(was, a, Key(a));
      l := Put(was, a);
    case Some(i) =>
      RecordFits(s, prec, account, i);
      BalanceAt(was, Key(a), i);
      SumAmount(was[i].amount, a.amount, a.precision);
      l := was[i := was[i].(amount := was[i].amount + a.amount)];
      ReplaceKeepsOrder(was, i, l[i], Key(a));
  }

  lemma AddMoves(s: State, prec: string -> nat, account: string, a: Asset, p: string)
    requires Good(s) && Uniform(s, prec) && Key(a) in s.created && Fits(a, prec)
    requires Balance(ListOf(s.holdings, account), Key(a)) + a.amount < TWO_TO_THE_64
    ensures Balance(ListOf(AddCurrency(s, account, a).0.holdings, p), Key(a))
         == Balance(ListOf(s.holdings, p), Key(a)) + if p == account then a.amount else 0
  {
    hide AddCurrency, Balance, Good, Uniform;
    var l := AddAsUpdate(s, prec, account, a);
  }

  lemma RemoveMoves(s: State, account: string, a: Asset, p: string)
    requires p != account
    ensures ListOf(RemoveCurrency(s, account, a).0.holdings, p) == ListOf(s.holdings, p)
  {
  }

  /** Where the money goes: the sender's balance falls by the amount, the receiver's rises by it, and
      both happen, and cancel, when they are the same account. */
  lemma TransferMoves(s: State, prec: string -> nat, sender: string, receiver: string, a: Asset, p: string)
    requires Good(s) && Uniform(s, prec) && Fits(a, prec) && Total(s, Key(a)) < TWO_TO_THE_64
    requires Transfer(s, sender, receiver, a).1 == Done
    ensures Balance(ListOf(Transfer(s, sender, receiver, a).0.holdings, p), Key(a))
         == Balance(ListOf(s.holdings, p), Key(a))
            - (if p == sender then a.amount else 0) + (if p == receiver then a.amount else 0)
  {
    hide Good, Uniform, Total, AddCurrency, RemoveCurrency;
    RemoveConserves(s, prec, sender, a, Key(a));
    RemoveKeepsGood(s, sender, a);
    RemoveCreated(s, sender, a);
    var s1 := RemoveCurrency(s, sender, a).0;
    BalanceBelowTotal(s1, receiver, Key(a));
    AddMoves(s1, prec, receiver, a, p);
    if p != sender {
      RemoveMoves(s, sender, a, p);
    }
  }

  /** The guards of the debit: a removal goes through exactly when the asset is created, the record
      exists, both precisions are at most 18 and the record does not compare as less than the amount. */
  lemma RemoveGuards(s: State, account: string, a: Asset)
    ensures var l, i := ListOf(s.holdings, account), IndexOf(ListOf(s.holdings, account), Key(a));
      RemoveCurrency(s, account, a).1 == Done <==>
        && Key(a) in s.created && i.Some?
        && l[i.value].precision <= MAX_PRECISION && a.precision <= MAX_PRECISION
        && !Less(Of(l[i.value].amount, l[i.value].precision), Of(a.amount, a.precision))
  {
  }

  /** Without one precision for each asset a transfer can throw half-way. It leaves the sender debited
      exactly when the amount is positive, every guard of the debit passes, and the receiver has a
      record with a precision above 18. */
  lemma TransferHalfDone(s: State, sender: string, receiver: string, a: Asset)
    requires Good(s)
    ensures var (s', out) := Transfer(s, sender, receiver, a);
            var l, i := ListOf(s.holdings, sender), IndexOf(ListOf(s.holdings, sender), Key(a));
            var r, j := ListOf(s.holdings, receiver), IndexOf(ListOf(s.holdings, receiver), Key(a));
      (out.Failed? && s' != s) <==>
        && a.amount > 0 && a.precision <= MAX_PRECISION
        && Key(a) in s.created && i.Some? && l[i.value].precision <= MAX_PRECISION
        && !Less(Of(l[i.value].amount, l[i.value].precision), Of(a.amount, a.precision))
        && j.Some? && r[j.value].precision > MAX_PRECISION
  {
    hide Less, Of;
    RemoveGuards(s, sender, a);
    HalfDoneAfterDebit(s, sender, receiver, a);
  }

  lemma HalfDoneAfterDebit(s: State, sender: string, receiver: string, a: Asset)
    requires Good(s)
    ensures var (s', out) := Transfer(s, sender, receiver, a);
            var r, j := ListOf(s.holdings, receiver), IndexOf(ListOf(s.holdings, receiver), Key(a));
      (out.Failed? && s' != s) <==>
        && RemoveCurrency(s, sender, a).1 == Done && a.amount > 0
        && j.Some? && r[j.value].precision > MAX_PRECISION
  {
    var (s1, out) := RemoveCurrency(s, sender, a);
    if out == Done {
      DebitKeepsRecord(s, sender, receiver, a);
      DebitAmount(s, sender, a);
    }
  }

  lemma DebitKeepsRecord(s: State, sender: string, receiver: string, a: Asset)
    requires Good(s) && RemoveCurrency(s, sender, a).1 == Done
    ensures var l, l' := ListOf(s.holdings, receiver), ListOf(RemoveCurrency(s, sender, a).0.holdings, receiver);
      && IndexOf(l, Key(a)) == IndexOf(l', Key(a))
      && (IndexOf(l, Key(a)).Some? ==>
            l[IndexOf(l, Key(a)).value].precision == l'[IndexOf(l, Key(a)).value].precision)
  {
    RemoveKeepsGood(s, sender, a);
    var s1 := RemoveCurrency(s, sender, a).0;
    var i := Find(s, sender, Key(a)).value;
    ListIsSorted(s1, sender);
    LookupIsExact(ListOf(s1.holdings, sender), Key(a), i);
  }

  lemma DebitAmount(s: State, sender: string, a: Asset)
    requires Good(s) && RemoveCurrency(s, sender, a).1 == Done
    ensures RemoveCurrency(s, sender, a).0 == s <==> a.amount == 0
  {
    var i := Find(s, sender, Key(a)).value;
    var l := ListOf(s.holdings, sender);
    var s1 := RemoveCurrency(s, sender, a).0;
    var rest := (l[i].amount - a.amount) % TWO_TO_THE_64;
    assert s1.holdings[sender][i].amount == rest;
    assert rest == l[i].amount <==> a.amount == 0;
    if a.amount == 0 {
      assert l[i := l[i].(amount := rest)] == l;
      assert s1.holdings == s.holdings;
    }
  }

  // ---------- Accounts and lookups ----------

  /** A removal of an account succeeds exactly for an account that exists. It leaves neither the account
      nor any holding of it, leaves every other account alone, and cannot be repeated. */
  lemma RemovedAccountIsGone(s: State, pubkey: string, p: string)
    ensures var (s', out) := RemoveAccount(s, pubkey);
      && (out == Done <==> pubkey in s.accounts)
      && (out == Done ==> pubkey !in s'.accounts && ListOf(s'.holdings, pubkey) == []
                          && RemoveAccount(s', pubkey) == (s', Failed(AccountNotFound)))
      && (p != pubkey ==> ListOf(s'.holdings, p) == ListOf(s.holdings, p)
                          && (p in s'.accounts <==> p in s.accounts)
                          && (p in s.accounts ==> s'.accounts[p] == s.accounts[p]))
  {
  }

  /** A record that an addition leaves is found again exactly when its asset is created. */
  lemma AddedIsFoundIffCreated(s: State, account: string, a: Asset)
    requires AddCurrency(s, account, a).1 == Done
    ensures Find(AddCurrency(s, account, a).0, account, Key(a)).Some? <==> Key(a) in s.created
  {
    var l := ListOf(s.holdings, account);
    match Find(s, account, Key(a))
    case None =>
      var i :| 0 <= i < |Put(l, a)| && Put(l, a)[i] == a;
      assert IndexOf(Put(l, a), Key(a)).Some?;
    case Some(i) =>
      var l' := ListOf(AddCurrency(s, account, a).0.holdings, account);
      assert Key(l'[i]) == Key(a);
  }

  /** A put record is found exactly as given. */
  lemma PutIsFound(l: seq<Asset>, a: Asset)
    requires Sorted(l)
    ensures var i := IndexOf(Put(l, a), Key(a));
      i.Some? && Put(l, a)[i.value] == a
  {
    PutKeepsSorted(l, a);
    var i :| 0 <= i < |Put(l, a)| && Put(l, a)[i] == a;
    LookupIsExact(Put(l, a), Key(a), i);
  }

  /** An asset that was just created can be added to any account that has none of it, and is then found
      there with exactly the amount and precision given. */
  lemma CreateAddFind(s: State, account: string, a: Asset)
    requires Good(s) && IndexOf(ListOf(s.holdings, account), Key(a)).None?
    ensures var s' := AddCurrency(Create(s, a.ledger, a.domain, a.name), account, a).0;
            var r := Find(s', account, Key(a));
      r.Some? && ListOf(s'.holdings, account)[r.value] == a
  {
    PutIsFound(ListOf(s.holdings, account), a);
  }

  /** Nothing that exists already is ever reported: a second creation of an asset, or of another one
      with the same key, succeeds and overwrites the first, and so does a second account. */
  lemma SecondCreationOverwrites(s: State, a: Asset, b: Asset, pubkey: string, first: string, second: string)
    requires Key(a) == Key(b)
    ensures var (s1, out1) := Apply(s, AssetCreate(a.ledger, a.domain, a.name));
            var (s2, out2) := Apply(s1, AssetCreate(b.ledger, b.domain, b.name));
      && out1 == out2 == Done && Key(b) in s2.assets && s2.created[Key(b)] == s2.assets[Key(b)]
      && s2.assets[Key(b)].ledger == b.ledger && s2.assets[Key(b)].domain == b.domain
      && s2.assets[Key(b)].name == b.name
      && s2.holdings == s.holdings && s2.accounts == s.accounts
    ensures var (s1, out1) := Apply(s, AccountAdd(pubkey, first));
            var (s2, out2) := Apply(s1, AccountAdd(pubkey, second));
      out1 == out2 == Done && s2 == s.(accounts := s.accounts[pubkey := second])
  {
    assert s.accounts[pubkey := first][pubkey := second] == s.accounts[pubkey := second];
  }

  lemma ExistsIsNeverReported(s: State, c: Command)
    ensures Apply(s, c).1 != Failed(AssetExists) && Apply(s, c).1 != Failed(AccountExists)
  {
  }

  /** An asset that is not created can be added to an account, because the failed lookup is taken to
      mean that there is no record. The record is then neither found there nor taken away, until the
      asset is created: it is then found exactly as it was added. */
  lemma StrandedUntilCreated(s: State, account: string, a: Asset, b: Asset, receiver: string)
    requires Good(s) && Key(a) !in s.created && Key(b) == Key(a)
    ensures var (s', out) := AddCurrency(s, account, a);
            var s'' := Create(s', b.ledger, b.domain, b.name);
            var r := Find(s'', account, Key(a));
      && out == Done
      && Find(s', account, Key(a)).None?
      && RemoveCurrency(s', account, b) == (s', Failed(AssetNotFound))
      && Transfer(s', account, receiver, b) == (s', Failed(AssetNotFound))
      && r.Some? && ListOf(s''.holdings, account)[r.value] == a
  {
    ListIsSorted(s, account);
    PutIsFound(ListOf(s.holdings, account), a);
  }

  /** Additions add up, short of 2^64, exactly when the asset is created or nothing was held: an
      addition of an asset that is not created overwrites what earlier ones left. */
  lemma AddsUpIff(s: State, prec: string -> nat, account: string, a: Asset)
    requires Good(s) && Uniform(s, prec) && Fits(a, prec)
    requires Balance(ListOf(s.holdings, account), Key(a)) + a.amount < TWO_TO_THE_64
    ensures var held := Balance(ListOf(s.holdings, account), Key(a));
            var holds := Balance(ListOf(AddCurrency(s, account, a).0.holdings, account), Key(a));
      holds == held + a.amount <==> Key(a) in s.created || held == 0
  {
    if Key(a) in s.created {
      var l := AddAsUpdate(s, prec, account, a);
    } else {
      PutBalance(ListOf(s.holdings, account), a, Key(a));
    }
  }

  /** The half-done transfer happens in a run from the empty world: bob's first record is stored with
      precision 200, where alice's has 2, and the transfer then fails with alice three units short. */
  lemma HalfDoneIsReachable()
    ensures var setup := [AssetCreate("l", "d", "n"), AssetAdd("alice", Asset("l", "d", "n", 5, 2)),
                          AssetAdd("bob", Asset("l", "d", "n", 1, 200))];
            var s := ApplyAll(State(map[], map[], map[], map[]), setup);
            var (s', out) := Transfer(s, "alice", "bob", Asset("l", "d", "n", 3, 2));
      && out == Failed(BadPrecision)
      && Balance(ListOf(s.holdings, "alice"), "ldn") == 5
      && Balance(ListOf(s'.holdings, "alice"), "ldn") == 2
      && ListOf(s'.holdings, "bob") == ListOf(s.holdings, "bob")
  {
    var five, one, three := Asset("l", "d", "n", 5, 2), Asset("l", "d", "n", 1, 200), Asset("l", "d", "n", 3, 2);
    assert Key(five) == Key(one) == Key(three) == "ldn";
    var c0, c1, c2 := AssetCreate("l", "d", "n"), AssetAdd("alice", five), AssetAdd("bob", one);
    var s0 := State(map[], map[], map[], map[]);
    var s1 := Create(s0, "l", "d", "n");
    var s2 := AddCurrency(s1, "alice", five).0;
    var s3 := AddCurrency(s2, "bob", one).0;
    assert IndexOf([], "ldn").None? && Put([], five) == [five] && Put([], one) == [one];
    assert "alice" != "bob";
    assert s2.holdings == map["alice" := [five]];
    assert s3.holdings == map["alice" := [five], "bob" := [one]];
    assert [c0, c1, c2][1..] == [c1, c2] && [c1, c2][1..] == [c2] && [c2][1..] == [];
    assert ApplyAll(s2, [c2]) == s3;
    assert ApplyAll(s1, [c1, c2]) == s3;
    OrderIsAmountOrder(5, 3, 2);
    var t := RemoveCurrency(s3, "alice", three);
    assert IndexOf([five], "ldn") == Some(0) && IndexOf([one], "ldn") == Some(0);
    assert [five][0 := five.(amount := 2)] == [five.(amount := 2)];
    assert t.1 == Done && t.0.holdings == map["alice" := [five.(amount := 2)], "bob" := [one]];
  }

  // ---------- Runs of commands ----------

  /** What a command takes out of, or brings into, the supply of an asset. An addition of an asset that
      is not created also takes out what the account held. */
  ghost function Flow(s: State, c: Command, key: string): int {
    if Apply(s, c).1.Failed? then 0
    else
      match c
      case AssetAdd(p, a) =>
        if key != Key(a) then 0
        else a.amount - if key in s.created then 0 else Balance(ListOf(s.holdings, p), key)
      case AssetRemove(_, a) => if key == Key(a) then 0 - a.amount else 0
      case AccountRemove(pubkey) => 0 - Balance(ListOf(s.holdings, pubkey), key)
      case _ => 0
  }

  /** One precision for each asset, and no addition that takes a supply to 2^64. */
  ghost predicate Legal(s: State, c: Command, prec: string -> nat) {
    match c
    case AssetAdd(_, a) => Fits(a, prec) && Total(s, Key(a)) + a.amount < TWO_TO_THE_64
    case AssetRemove(_, a) => Fits(a, prec)
    case AssetTransfer(_, _, a) => Fits(a, prec)
    case _ => true
  }

  /** Every supply is below 2^64. */
  ghost predicate Bounded(s: State) {
    forall key :: Total(s, key) < TWO_TO_THE_64
  }

  /** Lists are sorted, each asset has one precision, and supplies are bounded. */
  ghost predicate Sound(s: State, prec: string -> nat) {
    Good(s) && Uniform(s, prec) && Bounded(s)
  }

  /** One command keeps all that, and changes each supply by its flow. */
  lemma ApplyConserves(s: State, c: Command, prec: string -> nat, key: string)
    requires Sound(s, prec) && Legal(s, c, prec)
    ensures var s' := Apply(s, c).0;
      Sound(s', prec) && Total(s', key) == Total(s, key) + Flow(s, c, key)
  {
    hide Good, Uniform, Total, Apply, Flow;
    SupplyFollowsFlow(s, c, prec, key);
    forall k
      ensures Total(Apply(s, c).0, k) < TWO_TO_THE_64
    {
      SupplyFollowsFlow(s, c, prec, k);
      FlowIsBounded(s, c, k);
    }
  }

  /** Only an addition raises a supply, and by no more than its amount. */
  lemma FlowIsBounded(s: State, c: Command, key: string)
    ensures Flow(s, c, key) <= if c.AssetAdd? && key == Key(c.asset) then c.asset.amount else 0
  {
    hide AddCurrency, RemoveCurrency, Transfer;
  }

  lemma SupplyFollowsFlow(s: State, c: Command, prec: string -> nat, key: string)
    requires Sound(s, prec) && Legal(s, c, prec)
    ensures var s' := Apply(s, c).0;
      Good(s') && Uniform(s', prec) && Total(s', key) == Total(s, key) + Flow(s, c, key)
  {
    hide AddCurrency, RemoveCurrency, Good, Uniform, Total, Balance;
    ApplyKeepsGood(s, c);
    match c
    case AssetAdd(account, a) =>
      BalanceBelowTotal(s, account, Key(a));
      AddConserves(s, prec, account, a, key);
    case AssetRemove(account, a) => RemoveConserves(s, prec, account, a, key);
    case AssetTransfer(sender, receiver, a) => TransferConserves(s, prec, sender, receiver, a, key);
    case AccountRemove(pubkey) => RemoveAccountConserves(s, prec, pubkey, key);
    case AssetCreate(ledger, domain, name) => SameHoldings(s, Create(s, ledger, domain, name), prec, key);
    case AccountAdd(pubkey, blob) => SameHoldings(s, s.(accounts := s.accounts[pubkey := blob]), prec, key);
    case Unimplemented =>
    case Wrong =>
  }

  lemma SameHoldings(s: State, s': State, prec: string -> nat, key: string)
    requires s'.holdings == s.holdings
    ensures Total(s', key) == Total(s, key) && (Uniform(s, prec) ==> Uniform(s', prec))
  {
  }

  lemma RemoveAccountConserves(s: State, prec: string -> nat, pubkey: string, key: string)
    requires Uniform(s, prec)
    ensures var (s', out) := RemoveAccount(s, pubkey);
      && Uniform(s', prec)
      && Total(s', key) == Total(s, key) - if out == Done then Balance(ListOf(s.holdings, pubkey), key) else 0
  {
    if pubkey in s.accounts && pubkey in s.holdings {
      SumTake(Balances(s.holdings, key), pubkey);
      assert Balances(s.holdings - {pubkey}, key) == Balances(s.holdings, key) - {pubkey};
    } else {
      assert s.holdings - {pubkey} == s.holdings || pubkey !in s.accounts;
    }
  }

  function ApplyAll(s: State, cs: seq<Command>): State
    decreases |cs|
  {
    if cs == [] then s else ApplyAll(Apply(s, cs[0]).0, cs[1..])
  }

  ghost predicate LegalRun(s: State, cs: seq<Command>, prec: string -> nat)
    decreases |cs|
  {
    cs == [] || (Legal(s, cs[0], prec) && LegalRun(Apply(s, cs[0]).0, cs[1..], prec))
  }

  ghost function TotalFlow(s: State, cs: seq<Command>, key: string): int
    decreases |cs|
  {
    if cs == [] then 0 else Flow(s, cs[0], key) + TotalFlow(Apply(s, cs[0]).0, cs[1..], key)
  }

  /** Over a whole run supplies stay below 2^64, and an asset's supply changes only by what was added,
      removed, or deleted together with its account. */
  lemma {:induction false} RunConserves(s: State, cs: seq<Command>, prec: string -> nat, key: string)
    requires Sound(s, prec) && LegalRun(s, cs, prec)
    ensures Sound(ApplyAll(s, cs), prec)
    ensures Total(ApplyAll(s, cs), key) == Total(s, key) + TotalFlow(s, cs, key)
    decreases |cs|
  {
    hide Sound, Legal, Apply, Flow, Total;
    if cs != [] {
      ApplyConserves(s, cs[0], prec, key);
      RunConserves(Apply(s, cs[0]).0, cs[1..], prec, key);
    }
  }

  /** Every run of commands, whatever the amounts and precisions and whichever of them throw, keeps every
      account's list strictly sorted and every lookup exact. */
  lemma {:induction false} RunKeepsSorted(s: State, cs: seq<Command>, account: string, i: nat, key: string)
    requires Good(s)
    ensures var s' := ApplyAll(s, cs);
            var l := ListOf(s'.holdings, account);
      && Good(s') && Sorted(l)
      && (i < |l| ==> (Find(s', account, key) == Some(i) <==> key in s'.created && Key(l[i]) == key))
    decreases |cs|
  {
    if cs != [] {
      ApplyKeepsGood(s, cs[0]);
      RunKeepsSorted(Apply(s, cs[0]).0, cs[1..], account, i, key);
    } else {
      ListIsSorted(s, account);
      if i < |ListOf(s.holdings, account)| {
        LookupIsExact(ListOf(s.holdings, account), key, i);
      }
    }
  }
}
