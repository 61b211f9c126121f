/** What each command does to the world state. */
module WsvSpec {
  import opened Currency
  import opened World
  import opened Wrappers

  /** The three tables of the world state and the in-memory copy of the first one. */
  datatype State = State(
    assets: map<string, Asset>,
    accounts: map<string, string>,
    holdings: map<string, seq<Asset>>,
    created: map<string, Asset>)

  datatype Error =
    | AssetNotFound
    | NotEnoughAssets
    | AccountNotFound
    | AssetExists
    | AccountExists
    | BadPrecision
    | NotImplemented
    | WrongCommand

  datatype Outcome = Done | Failed(error: Error)

  /** `Unimplemented` stands for every command that is stored and indexed but that the world state
      refuses, `Wrong` for those the transaction store refuses as well. */
  datatype Command =
    | AssetCreate(ledger: string, domain: string, name: string)
    | AssetAdd(account: string, asset: Asset)
    | AssetRemove(account: string, asset: Asset)
    | AssetTransfer(sender: string, receiver: string, asset: Asset)
    | AccountAdd(pubkey: string, blob: string)
    | AccountRemove(pubkey: string)
    | Unimplemented
    | Wrong

  function ListOf(holdings: map<string, seq<Asset>>, account: string): seq<Asset> {
    if account in holdings then holdings[account] else []
  }

  /** The position of an account's record; only created assets can be looked up. */
  function Find(s: State, account: string, key: string): (r: Option<nat>)
    ensures r.Some? ==> r.value < |ListOf(s.holdings, account)| && Key(ListOf(s.holdings, account)[r.value]) == key
  {
    if key in s.created then IndexOf(ListOf(s.holdings, account), key) else None
  }

  function SetAmount(s: State, account: string, i: nat, amount: U64): State
    requires i < |ListOf(s.holdings, account)|
  {
    var l := ListOf(s.holdings, account);
    s.(holdings := s.holdings[account := l[i := l[i].(amount := amount)]])
  }

  function AddCurrency(s: State, account: string, a: Asset): (State, Outcome) {
    var l := ListOf(s.holdings, account);
    match Find(s, account, Key(a))
    case None => (s.(holdings := s.holdings[account := Put(l, a)]), Done)
    case Some(i) =>
      if l[i].precision > MAX_PRECISION || a.precision > MAX_PRECISION then (s, Failed(BadPrecision))
      else
        var sum := Plus(Of(l[i].amount, l[i].precision), Of(a.amount, a.precision));
        (SetAmount(s, account, i, sum.amount), Done)
  }

  function RemoveCurrency(s: State, account: string, a: Asset): (State, Outcome) {
    var l := ListOf(s.holdings, account);
    match Find(s, account, Key(a))
    case None => (s, Failed(AssetNotFound))
    case Some(i) =>
      if l[i].precision > MAX_PRECISION || a.precision > MAX_PRECISION then (s, Failed(BadPrecision))
      else
        var current, delta := Of(l[i].amount, l[i].precision), Of(a.amount, a.precision);
        if Less(current, delta) then (s, Failed(NotEnoughAssets))
        else (SetAmount(s, account, i, Minus(current, delta).amount), Done)
  }

  /** Debit, then credit. A credit that fails is not undone. */
  function Transfer(s: State, sender: string, receiver: string, a: Asset): (State, Outcome) {
    var (s', out) := RemoveCurrency(s, sender, a);
    if out.Failed? then (s', out) else AddCurrency(s', receiver, a)
  }

  function Create(s: State, ledger: string, domain: string, name: string): State {
    var a := Asset(ledger, domain, name, 0, 0);
    s.(assets := s.assets[Key(a) := a], created := s.created[Key(a) := a])
  }

  function RemoveAccount(s: State, pubkey: string): (State, Outcome) {
    if pubkey !in s.accounts then (s, Failed(AccountNotFound))
    else (s.(accounts := s.accounts - {pubkey}, holdings := s.holdings - {pubkey}), Done)
  }

  function Apply(s: State, c: Command): (State, Outcome) {
    match c
    case AssetCreate(ledger, domain, name) => (Create(s, ledger, domain, name), Done)
    case AssetAdd(account, a) => AddCurrency(s, account, a)
    case AssetRemove(account, a) => RemoveCurrency(s, account, a)
    case AssetTransfer(sender, receiver, a) => Transfer(s, sender, receiver, a)
    case AccountAdd(pubkey, blob) => (s.(accounts := s.accounts[pubkey := blob]), Done)
    case AccountRemove(pubkey) => RemoveAccount(s, pubkey)
    case Unimplemented => (s, Failed(NotImplemented))
    case Wrong => (s, Failed(NotImplemented))
  }

  /** Only created assets are added. */
  predicate OnCreated(s: State, c: Command) {
    c.AssetAdd? ==> Key(c.asset) in s.created
  }

  // ---------- Sorted lists ----------

  /** Every account's list is sorted by key without repetition; the in-memory assets are those of the
      table. */
  ghost predicate Good(s: State) {
    s.created == s.assets && forall p :: p in s.holdings ==> Sorted(s.holdings[p])
  }

  /** Every record names a created asset. */
  ghost predicate Named(s: State) {
    forall p, i :: p in s.holdings && 0 <= i < |s.holdings[p]| ==> Key(s.holdings[p][i]) in s.created
  }

  lemma ListIsSorted(s: State, account: string)
    requires Good(s)
    ensures Sorted(ListOf(s.holdings, account))
  {
  }

  lemma AddKeepsGood(s: State, account: string, a: Asset)
    requires Good(s)
    ensures Good(AddCurrency(s, account, a).0)
  {
    match Find(s, account, Key(a))
    case None =>
      ListIsSorted(s, account);
      PutKeepsSorted(ListOf(s.holdings, account), a);
    case Some(i) => SetKeepsGood(s, account, i);
  }

  lemma SetKeepsGood(s: State, account: string, i: nat)
    requires Good(s) && i < |ListOf(s.holdings, account)|
    ensures forall amount: U64 :: Good(SetAmount(s, account, i, amount))
  {
    var l := ListOf(s.holdings, account);
    forall amount: U64
      ensures Good(SetAmount(s, account, i, amount))
    {
      ReplaceKeepsOrder(l, i, l[i].(amount := amount), "");
    }
  }

  lemma RemoveKeepsGood(s: State, account: string, a: Asset)
    requires Good(s)
    ensures Good(RemoveCurrency(s, account, a).0)
  {
    match Find(s, account, Key(a))
    case None =>
    case Some(i) => SetKeepsGood(s, account, i);
  }

  /** Every command, whether it succeeds or throws, keeps the lists sorted and the mirror exact. */
  lemma ApplyKeepsGood(s: State, c: Command)
    requires Good(s)
    ensures Good(Apply(s, c).0)
  {
    hide AddCurrency, RemoveCurrency;
    match c
    case AssetCreate(ledger, domain, name) =>
    case AssetAdd(account, a) => AddKeepsGood(s, account, a);
    case AssetRemove(account, a) => RemoveKeepsGood(s, account, a);
    case AssetTransfer(sender, receiver, a) =>
      RemoveKeepsGood(s, sender, a);
      AddKeepsGood(RemoveCurrency(s, sender, a).0, receiver, a);
    case AccountAdd(_, _) =>
    case AccountRemove(_) =>
    case Unimplemented =>
    case Wrong =>
  }

  /** Only created assets can be taken from an account. */
  lemma RemoveCreated(s: State, account: string, a: Asset)
    ensures RemoveCurrency(s, account, a).0.created == s.created
    ensures RemoveCurrency(s, account, a).1 == Done ==> Key(a) in s.created
  {
  }

  lemma AddKeepsNamed(s: State, account: string, a: Asset)
    requires Named(s) && Key(a) in s.created
    ensures Named(AddCurrency(s, account, a).0)
  {
    var l := ListOf(s.holdings, account);
    if Find(s, account, Key(a)).None? {
      forall i | 0 <= i < |Put(l, a)|
        ensures Key(Put(l, a)[i]) in s.created
      {
        PutHolds(l, a, i);
      }
    }
  }

  lemma RemoveKeepsNamed(s: State, account: string, a: Asset)
    requires Named(s)
    ensures Named(RemoveCurrency(s, account, a).0)
  {
  }

  /** A command that does not add an asset before it is created keeps every record under the name of a
      created asset; a transfer cannot move any other. */
  lemma ApplyKeepsNamed(s: State, c: Command)
    requires Named(s) && OnCreated(s, c)
    ensures Named(Apply(s, c).0)
  {
    hide AddCurrency, RemoveCurrency;
    match c
    case AssetCreate(ledger, domain, name) =>
    case AssetAdd(account, a) => AddKeepsNamed(s, account, a);
    case AssetRemove(account, a) => RemoveKeepsNamed(s, account, a);
    case AssetTransfer(sender, receiver, a) =>
      RemoveKeepsNamed(s, sender, a);
      RemoveCreated(s, sender, a);
      var (s', out) := RemoveCurrency(s, sender, a);
      if out == Done {
        AddKeepsNamed(s', receiver, a);
      }
    case AccountAdd(_, _) =>
    case AccountRemove(_) =>
    case Unimplemented =>
    case Wrong =>
  }
}
