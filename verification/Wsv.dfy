/** The world state object: tables and the in-memory copy of created assets, updated in place. */
module Wsv {
  import opened Currency
  import opened World
  import opened Wrappers
  import opened WsvSpec

  class WSV {
    var assets: map<string, Asset>
    var accounts: map<string, string>
    var holdings: map<string, seq<Asset>>
    var created: map<string, Asset>

    ghost function Abstract(): State
      reads this
    {
      State(assets, accounts, holdings, created)
    }

    /** `init`: the tables as the transaction shows them, and the copy read from them. */
    constructor (assets: map<string, Asset>, accounts: map<string, string>, holdings: map<string, seq<Asset>>)
      ensures Abstract() == State(assets, accounts, holdings, assets)
    {
      this.assets, this.accounts, this.holdings := assets, accounts, holdings;
      created := map[];
      new;
      ReadCreatedAssets();
    }

    method Init(assets: map<string, Asset>, accounts: map<string, string>, holdings: map<string, seq<Asset>>)
      modifies this
      ensures Abstract() == State(assets, accounts, holdings, assets)
    {
      this.assets, this.accounts, this.holdings := assets, accounts, holdings;
      ReadCreatedAssets();
    }

    method ReadCreatedAssets()
      modifies this`created
      ensures created == assets
    {
      created := map[];
      var left := assets.Keys;
      while left != {}
        invariant left <= assets.Keys
        invariant created.Keys == assets.Keys - left
        invariant forall k :: k in created ==> created[k] == assets[k]
        decreases left
      {
        var assetid :| assetid in left;
        created := created[assetid := assets[assetid]];
        left := left - {assetid};
      }
    }

    method AssetCreate(ledger: string, domain: string, name: string)
      modifies this
      ensures Abstract() == Create(old(Abstract()), ledger, domain, name)
    {
      var pk := ledger + domain + name;
      var asset := Asset(ledger, domain, name, 0, 0);
      assets := assets[pk := asset];
      created := created[pk := asset];
    }

    /** The position of the record; None where the source throws ASSET_NOT_FOUND. */
    method AccountGetAsset(pubkey: string, ledger: string, domain: string, name: string) returns (r: Option<nat>)
      ensures r == Find(Abstract(), pubkey, ledger + domain + name)
    {
      var pk := ledger + domain + name;
      if pk !in created {
        return None;
      }
      if pubkey !in holdings {
        return None;
      }
      return IndexOf(holdings[pubkey], pk);
    }

    method AccountAddCurrency(pubkey: string, asset: Asset) returns (out: Outcome)
      modifies this`holdings
      ensures (Abstract(), out) == AddCurrency(old(Abstract()), pubkey, asset)
    {
      var found := AccountGetAsset(pubkey, asset.ledger, asset.domain, asset.name);
      match found
      case Some(i) =>
        var copy := holdings[pubkey][i];
        var ok, current := Make(copy.amount, copy.precision);
        if !ok {
          return Failed(BadPrecision);
        }
        var ok', delta := Make(asset.amount, asset.precision);
        if !ok' {
          return Failed(BadPrecision);
        }
        current := Plus(current, delta);
        copy := copy.(amount := current.amount, precision := current.precision);
        holdings := holdings[pubkey := holdings[pubkey][i := copy]];
        return Done;
      case None =>
        var l := if pubkey in holdings then holdings[pubkey] else [];
        holdings := holdings[pubkey := Put(l, asset)];
        return Done;
    }

    method AccountRemoveCurrency(pubkey: string, asset: Asset) returns (out: Outcome)
      modifies this`holdings
      ensures (Abstract(), out) == RemoveCurrency(old(Abstract()), pubkey, asset)
    {
      var found := AccountGetAsset(pubkey, asset.ledger, asset.domain, asset.name);
      match found
      case None =>
        return Failed(AssetNotFound);
      case Some(i) =>
        var copy := holdings[pubkey][i];
        var ok, current := Make(copy.amount, copy.precision);
        if !ok {
          return Failed(BadPrecision);
        }
        var ok', delta := Make(asset.amount, asset.precision);
        if !ok' {
          return Failed(BadPrecision);
        }
        if Less(current, delta) {
          return Failed(NotEnoughAssets);
        }
        current := Minus(current, delta);
        copy := copy.(amount := current.amount, precision := current.precision);
        holdings := holdings[pubkey := holdings[pubkey][i := copy]];
        return Done;
    }

    method AssetTransfer(sender: string, receiver: string, asset: Asset) returns (out: Outcome)
      modifies this`holdings
      ensures (Abstract(), out) == Transfer(old(Abstract()), sender, receiver, asset)
    {
      out := AccountRemoveCurrency(sender, asset);
      if out == Done {
        out := AccountAddCurrency(receiver, asset);
      }
    }

    method DropAccount(pubkey: string) returns (out: Outcome)
      modifies this
      ensures (Abstract(), out) == RemoveAccount(old(Abstract()), pubkey)
    {
      if pubkey !in accounts {
        return Failed(AccountNotFound);
      }
      accounts := accounts - {pubkey};
      if pubkey !in holdings {
        assert holdings - {pubkey} == holdings;
        return Done;
      }
      holdings := holdings - {pubkey};
      return Done;
    }

    method Update(c: Command) returns (out: Outcome)
      modifies this
      ensures (Abstract(), out) == Apply(old(Abstract()), c)
    {
      match c
      case AssetCreate(ledger, domain, name) =>
        AssetCreate(ledger, domain, name);
        return Done;
      case AssetAdd(account, asset) =>
        out := AccountAddCurrency(account, asset);
      case AssetRemove(account, asset) =>
        out := AccountRemoveCurrency(account, asset);
      case AssetTransfer(sender, receiver, asset) =>
        out := AssetTransfer(sender, receiver, asset);
      case AccountAdd(pubkey, blob) =>
        accounts := accounts[pubkey := blob];
        return Done;
      case AccountRemove(pubkey) =>
        out := DropAccount(pubkey);
      case Unimplemented =>
        return Failed(NotImplemented);
      case Wrong =>
        return Failed(NotImplemented);
    }
  }
}
