/** What each command does, record by record: its outcome from its guards alone, and every table
    afterwards. */
module WsvEffects {
  import opened Arith
  import opened Currency
  import opened World
  import opened Wrappers
  import opened WsvSpec
  import opened WsvLaws

  // ---------- Records ----------

  /** The record with that key, amount and precision included. */
  function Record(l: seq<Asset>, key: string): Option<Asset> {
    match IndexOf(l, key)
    case None => None
    case Some(i) => Some(l[i])
  }

  /** What an account holds under a key. */
  function Holding(s: State, account: string, key: string): Option<Asset> {
    Record(ListOf(s.holdings, account), key)
  }

  /** What a lookup finds: holdings of assets that are not created stay hidden. */
  function Known(s: State, account: string, key: string): Option<Asset> {
    if key in s.created then Holding(s, account, key) else None
  }

  lemma {:induction false} SameKeysSameIndex(l: seq<Asset>, l': seq<Asset>, key: string)
    requires |l| == |l'| && forall i :: 0 <= i < |l| ==> Key(l[i]) == Key(l'[i])
    ensures IndexOf(l, key) == IndexOf(l', key)
    decreases |l|
  {
    if l != [] {
      SameKeysSameIndex(l[1..], l'[1..], key);
    }
  }

  lemma SetRecord(l: seq<Asset>, i: nat, a: Asset, key: string)
    requires IndexOf(l, Key(a)) == Some(i)
    ensures Record(l[i := a], key) == if key == Key(a) then Some(a) else Record(l, key)
  {
    SameKeysSameIndex(l, l[i := a], key);
  }

  lemma {:induction false} PutRecord(l: seq<Asset>, a: Asset, key: string)
    ensures Record(Put(l, a), key) == if key == Key(a) then Some(a) else Record(l, key)
    decreases |l|
  {
    hide Before, Record;
    RecordFront(Put(l, a), key);
    if l != [] {
      RecordFront(l, key);
    }
    if l == [] || Before(Key(a), Key(l[0])) {
      assert Put(l, a)[1..] == l;
    } else if Key(l[0]) == Key(a) {
      assert Put(l, a)[1..] == l[1..];
    } else {
      PutRecord(l[1..], a, key);
      assert Put(l, a)[1..] == Put(l[1..], a);
    }
  }

  lemma RecordFront(l: seq<Asset>, key: string)
    requires l != []
    ensures Record(l, key) == if Key(l[0]) == key then Some(l[0]) else Record(l[1..], key)
    ensures Record([], key).None?
  {
  }

  /** A sorted list is determined by its records. */
  lemma {:induction false} RecordsDetermineList(l: seq<Asset>, m: seq<Asset>)
    requires Sorted(l) && Sorted(m) && forall key :: Record(l, key) == Record(m, key)
    ensures l == m
    decreases |l|
  {
    if l == [] || m == [] {
      assert l != [] ==> Record(l, Key(l[0])).Some?;
      assert m != [] ==> Record(m, Key(m[0])).Some?;
    } else {
      SameHead(l, m);
      forall key
        ensures Record(l[1..], key) == Record(m[1..], key)
      {
        TailRecord(l, key);
        TailRecord(m, key);
      }
      RecordsDetermineList(l[1..], m[1..]);
      assert l == [l[0]] + l[1..] && m == [m[0]] + m[1..];
    }
  }

  lemma SameHead(l: seq<Asset>, m: seq<Asset>)
    requires Sorted(l) && Sorted(m) && l != [] && m != []
    requires Record(l, Key(l[0])) == Record(m, Key(l[0])) && Record(l, Key(m[0])) == Record(m, Key(m[0]))
    ensures l[0] == m[0]
  {
    hide Before;
    LookupIsExact(l, Key(l[0]), 0);
    LookupIsExact(m, Key(m[0]), 0);
    BeforeTotal(Key(l[0]), Key(m[0]));
  }

  lemma TailRecord(l: seq<Asset>, key: string)
    requires Sorted(l) && l != []
    ensures Record(l[1..], key) == if key == Key(l[0]) then None else Record(l, key)
  {
    hide Before;
    if key == Key(l[0]) && IndexOf(l[1..], key).Some? {
      BeforeTotal(key, key);
    }
  }

  // ---------- Outcomes ----------

  function CreditVerdict(r: Option<Asset>, a: Asset): Outcome {
    if r.Some? && (r.value.precision > MAX_PRECISION || a.precision > MAX_PRECISION) then Failed(BadPrecision)
    else Done
  }

  function DebitVerdict(r: Option<Asset>, a: Asset): Outcome {
    if r.None? then Failed(AssetNotFound)
    else if r.value.precision > MAX_PRECISION || a.precision > MAX_PRECISION then Failed(BadPrecision)
    else if Less(Of(r.value.amount, r.value.precision), Of(a.amount, a.precision)) then Failed(NotEnoughAssets)
    else Done
  }

  /** The outcome a command must have, from what can be looked up before it. */
  function Verdict(s: State, c: Command): Outcome {
    match c
    case AssetCreate(_, _, _) => Done
    case AssetAdd(account, a) => CreditVerdict(Known(s, account, Key(a)), a)
    case AssetRemove(account, a) => DebitVerdict(Known(s, account, Key(a)), a)
    case AssetTransfer(sender, receiver, a) =>
      var debit := DebitVerdict(Known(s, sender, Key(a)), a);
      if debit.Failed? then debit else CreditVerdict(Known(s, receiver, Key(a)), a)
    case AccountAdd(_, _) => Done
    case AccountRemove(pubkey) => if pubkey in s.accounts then Done else Failed(AccountNotFound)
    case Unimplemented => Failed(NotImplemented)
    case Wrong => Failed(NotImplemented)
  }

  lemma RemoveEffect(s: State, account: string, a: Asset, p: string, key: string)
    ensures var (s', out) := RemoveCurrency(s, account, a);
      && out == DebitVerdict(Known(s, account, Key(a)), a)
      && s' == s.(holdings := s'.holdings)
      && Holding(s', p, key) == if out == Done && p == account && key == Key(a)
           then Some(Debited(Holding(s, p, key).value, a)) else Holding(s, p, key)
  {
    hide IndexOf, Less, Of, Record;
    var l := ListOf(s.holdings, account);
    RecordAt(l, Key(a));
    match Find(s, account, Key(a))
    case None =>
    case Some(i) =>
      if l[i].precision <= MAX_PRECISION && a.precision <= MAX_PRECISION {
        DebitedAmount(l[i], a);
      }
      SetRecord(l, i, Debited(l[i], a), key);
  }

  lemma AddEffect(s: State, account: string, a: Asset, p: string, key: string)
    ensures var (s', out) := AddCurrency(s, account, a);
      && out == CreditVerdict(Known(s, account, Key(a)), a)
      && s' == s.(holdings := s'.holdings)
      && Holding(s', p, key) == if out == Done && p == account && key == Key(a)
           then Some(Credited(Known(s, p, key), a)) else Holding(s, p, key)
  {
    hide IndexOf, Less, Of, Put, Record;
    var l := ListOf(s.holdings, account);
    RecordAt(l, Key(a));
    match Find(s, account, Key(a))
    case None => PutRecord(l, a, key);
    case Some(i) =>
      if l[i].precision <= MAX_PRECISION && a.precision <= MAX_PRECISION {
        CreditedAmount(l[i], a);
      }
      SetRecord(l, i, Credited(Some(l[i]), a), key);
  }

  lemma RecordAt(l: seq<Asset>, key: string)
    ensures Record(l, key).Some? <==> IndexOf(l, key).Some?
    ensures Record(l, key).Some? ==> Record(l, key).value == l[IndexOf(l, key).value]
    ensures Record(l, key).Some? ==> Key(Record(l, key).value) == key
  {
  }

  lemma DebitedAmount(r: Asset, a: Asset)
    requires r.precision <= MAX_PRECISION && a.precision <= MAX_PRECISION
    ensures r.(amount := Minus(Of(r.amount, r.precision), Of(a.amount, a.precision)).amount) == Debited(r, a)
  {
  }

  lemma CreditedAmount(r: Asset, a: Asset)
    requires r.precision <= MAX_PRECISION && a.precision <= MAX_PRECISION
    ensures r.(amount := Plus(Of(r.amount, r.precision), Of(a.amount, a.precision)).amount) == Credited(Some(r), a)
  {
  }

  /** The outcome of every command, in every state, is the one its guards give. */
  lemma OutcomeIsVerdict(s: State, c: Command)
    ensures Apply(s, c).1 == Verdict(s, c)
  {
    hide AddCurrency, RemoveCurrency, Holding, DebitVerdict, Debited, Credited;
    match c
    case AssetAdd(account, a) => AddEffect(s, account, a, account, Key(a));
    case AssetRemove(account, a) => RemoveEffect(s, account, a, account, Key(a));
    case AssetTransfer(sender, receiver, a) =>
      RemoveEffect(s, sender, a, receiver, Key(a));
      AddEffect(RemoveCurrency(s, sender, a).0, receiver, a, receiver, Key(a));
      DebitFinds(Known(s, sender, Key(a)), a);
      if Holding(s, receiver, Key(a)).Some? {
        SamePrecision(Holding(s, receiver, Key(a)), a);
      }
    case _ =>
  }

  lemma SamePrecision(r: Option<Asset>, a: Asset)
    requires r.Some?
    ensures Debited(r.value, a).precision == r.value.precision
  {
  }

  // ---------- Effects ----------

  /** A record less an amount, modulo 2^64. */
  function Debited(r: Asset, a: Asset): Asset {
    r.(amount := (r.amount - a.amount) % TWO_TO_THE_64)
  }

  /** What is found, plus an amount modulo 2^64, or the new record when nothing is found. */
  function Credited(found: Option<Asset>, a: Asset): Asset {
    match found
    case None => a
    case Some(r) => r.(amount := (r.amount + a.amount) % TWO_TO_THE_64)
  }

  /** What an account must hold under a key after a command. */
  function HoldingAfter(s: State, c: Command, p: string, key: string): Option<Asset> {
    var r := Holding(s, p, key);
    match c
    case AssetAdd(account, a) =>
      if p == account && key == Key(a) && Verdict(s, c) == Done then Some(Credited(Known(s, p, key), a)) else r
    case AssetRemove(account, a) =>
      if p == account && key == Key(a) && Verdict(s, c) == Done && r.Some? then Some(Debited(r.value, a)) else r
    case AssetTransfer(sender, receiver, a) =>
      if key != Key(a) || DebitVerdict(Known(s, sender, key), a) != Done then r
      else
        var debited := if p == sender && r.Some? then Some(Debited(r.value, a)) else r;
        if p == receiver && Verdict(s, c) == Done then Some(Credited(debited, a)) else debited
    case AccountRemove(pubkey) => if p == pubkey && Verdict(s, c) == Done then None else r
    case _ => r
  }

  /** Every command, succeeding or throwing, leaves every account with exactly the records it must have:
      an addition credits its account, a removal debits its account, a transfer debits the sender and
      then credits the receiver, a removed account holds nothing, and nothing else is touched. */
  lemma HoldingsFollow(s: State, c: Command, p: string, key: string)
    ensures Holding(Apply(s, c).0, p, key) == HoldingAfter(s, c, p, key)
  {
    hide AddCurrency, RemoveCurrency, DebitVerdict, CreditVerdict, Debited, Credited, IndexOf;
    OutcomeIsVerdict(s, c);
    match c
    case AssetAdd(account, a) => AddEffect(s, account, a, p, key);
    case AssetRemove(account, a) => RemoveEffect(s, account, a, p, key); DebitFinds(Known(s, account, Key(a)), a);
    case AssetTransfer(sender, receiver, a) => TransferEffect(s, sender, receiver, a, p, key);
    case _ =>
  }

  lemma DebitFinds(r: Option<Asset>, a: Asset)
    ensures DebitVerdict(r, a) == Done ==> r.Some?
  {
  }

  lemma TransferEffect(s: State, sender: string, receiver: string, a: Asset, p: string, key: string)
    ensures var c := AssetTransfer(sender, receiver, a);
      Holding(Transfer(s, sender, receiver, a).0, p, key) == HoldingAfter(s, c, p, key)
  {
    hide AddCurrency, RemoveCurrency, Holding, DebitVerdict, CreditVerdict, Debited, Credited;
    OutcomeIsVerdict(s, AssetTransfer(sender, receiver, a));
    DebitFinds(Known(s, sender, Key(a)), a);
    RemoveEffect(s, sender, a, p, key);
    AddEffect(RemoveCurrency(s, sender, a).0, receiver, a, p, key);
  }

  /** The other tables: creating an asset writes that one record, in the table and in memory, with no
      amount and precision 0; accounts are added and removed one at a time; nothing else is touched. */
  lemma TablesFollow(s: State, c: Command)
    ensures var s' := Apply(s, c).0;
      && s'.assets == (if c.AssetCreate?
           then s.assets[c.ledger + c.domain + c.name := Asset(c.ledger, c.domain, c.name, 0, 0)] else s.assets)
      && s'.created == (if c.AssetCreate?
           then s.created[c.ledger + c.domain + c.name := Asset(c.ledger, c.domain, c.name, 0, 0)] else s.created)
      && s'.accounts == (if c.AccountAdd? then s.accounts[c.pubkey := c.blob]
           else if c.AccountRemove? then s.accounts - {c.pubkey} else s.accounts)
  {
    hide AddCurrency, RemoveCurrency;
    match c
    case AssetAdd(account, a) => AddEffect(s, account, a, account, Key(a));
    case AssetRemove(account, a) => RemoveEffect(s, account, a, account, Key(a));
    case AssetTransfer(sender, receiver, a) =>
      RemoveEffect(s, sender, a, sender, Key(a));
      AddEffect(RemoveCurrency(s, sender, a).0, receiver, a, receiver, Key(a));
    case AccountRemove(pubkey) =>
      if pubkey !in s.accounts {
        assert s.accounts - {pubkey} == s.accounts;
      }
    case _ =>
  }

  // ---------- Balances ----------

  /** The balance an account must have after a command that succeeds. */
  function BalanceAfter(s: State, c: Command, p: string, key: string): int {
    var b := Balance(ListOf(s.holdings, p), key);
    match c
    case AssetAdd(account, a) =>
      if p == account && key == Key(a) then (if key in s.created then b else 0) + a.amount else b
    case AssetRemove(account, a) => if p == account && key == Key(a) then b - a.amount else b
    case AssetTransfer(sender, receiver, a) =>
      if key == Key(a) then b - (if p == sender then a.amount else 0) + (if p == receiver then a.amount else 0) else b
    case AccountRemove(pubkey) => if p == pubkey then 0 else b
    case _ => b
  }

  lemma BalanceIsRecord(l: seq<Asset>, key: string)
    ensures Balance(l, key) == match Record(l, key) case None => 0 case Some(r) => r.amount
  {
  }

  lemma SameRecordSameBalance(s: State, s': State, p: string, key: string)
    requires Holding(s, p, key) == Holding(s', p, key)
    ensures Balance(ListOf(s.holdings, p), key) == Balance(ListOf(s'.holdings, p), key)
  {
    BalanceIsRecord(ListOf(s.holdings, p), key);
    BalanceIsRecord(ListOf(s'.holdings, p), key);
  }

  /** With one precision for each asset and supplies below 2^64, a command that succeeds changes every
      balance as it says, and one that throws changes nothing at all. */
  lemma BalancesFollow(s: State, c: Command, prec: string -> nat, p: string, key: string)
    requires Sound(s, prec) && Legal(s, c, prec)
    ensures var s' := Apply(s, c).0;
      if Verdict(s, c) == Done then Balance(ListOf(s'.holdings, p), key) == BalanceAfter(s, c, p, key) else s' == s
  {
    hide AddCurrency, RemoveCurrency, DebitVerdict, CreditVerdict, Debited, Credited, Holding, Balance, Good, Uniform,
         Total;
    OutcomeIsVerdict(s, c);
    HoldingsFollow(s, c, p, key);
    var s' := Apply(s, c).0;
    if Holding(s', p, key) == Holding(s, p, key) {
      SameRecordSameBalance(s, s', p, key);
    }
    match c
    case AssetAdd(account, a) => AddedBalance(s, prec, account, a, p, key);
    case AssetRemove(account, a) => RemoveConserves(s, prec, account, a, key);
    case AssetTransfer(sender, receiver, a) =>
      TransferConserves(s, prec, sender, receiver, a, key);
      if key == Key(a) && Verdict(s, c) == Done {
        TransferMoves(s, prec, sender, receiver, a, p);
      }
    case AccountRemove(pubkey) => BalanceIsRecord(ListOf(s'.holdings, p), key);
    case _ =>
  }

  lemma AddedBalance(s: State, prec: string -> nat, account: string, a: Asset, p: string, key: string)
    requires Sound(s, prec) && Legal(s, AssetAdd(account, a), prec)
    ensures var (s', out) := AddCurrency(s, account, a);
      && out == Done
      && (p == account && key == Key(a) ==>
            Balance(ListOf(s'.holdings, p), key) == BalanceAfter(s, AssetAdd(account, a), p, key))
  {
    hide Good, Uniform, Total, Balance;
    AddKeepsUniform(s, prec, account, a);
    AddEffect(s, account, a, account, Key(a));
    BalanceBelowTotal(s, account, Key(a));
    BalanceIsRecord(ListOf(s.holdings, account), Key(a));
    BalanceIsRecord(ListOf(AddCurrency(s, account, a).0.holdings, account), Key(a));
  }

  // ---------- Runs ----------

  /** After a run the created assets are exactly those there were and those some command named, and
      the in-memory copy has the same keys if it had. */
  lemma {:induction false} CreatedInRun(s: State, cs: seq<Command>, key: string)
    ensures key in ApplyAll(s, cs).created <==> key in s.created || Names(cs, key)
    ensures key in ApplyAll(s, cs).assets <==> key in s.assets || Names(cs, key)
    decreases |cs|
  {
    hide Apply;
    if cs != [] {
      TablesFollow(s, cs[0]);
      CreatedInRun(Apply(s, cs[0]).0, cs[1..], key);
      NamesSplit(cs, key);
    }
  }

  ghost predicate Names(cs: seq<Command>, key: string) {
    exists i :: 0 <= i < |cs| && cs[i].AssetCreate? && cs[i].ledger + cs[i].domain + cs[i].name == key
  }

  lemma NamesSplit(cs: seq<Command>, key: string)
    requires cs != []
    ensures Names(cs, key) <==>
              (cs[0].AssetCreate? && cs[0].ledger + cs[0].domain + cs[0].name == key) || Names(cs[1..], key)
  {
    if Names(cs, key) {
      var i :| 0 <= i < |cs| && cs[i].AssetCreate? && cs[i].ledger + cs[i].domain + cs[i].name == key;
      assert i > 0 ==> cs[i] == cs[1..][i - 1];
    }
    if Names(cs[1..], key) {
      var i :| 0 <= i < |cs[1..]| && cs[1..][i].AssetCreate?
               && cs[1..][i].ledger + cs[1..][i].domain + cs[1..][i].name == key;
      assert cs[1..][i] == cs[i + 1];
    }
  }
}
