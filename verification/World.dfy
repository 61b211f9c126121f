/** The world state: created assets, accounts, and for each account a list of asset records sorted by
    the concatenated asset key. */
module World {
  import opened Currency
  import opened Wrappers

  datatype Asset = Asset(ledger: string, domain: string, name: string, amount: U64, precision: nat)

  function Key(a: Asset): string {
    a.ledger + a.domain + a.name
  }

  // ---------- Order of keys ----------

  /** Lexicographic order, as `std::string::compare`. */
  predicate Before(a: string, b: string)
    decreases |a|
  {
    b != [] && (a == [] || a[0] < b[0] || (a[0] == b[0] && Before(a[1..], b[1..])))
  }

  lemma {:induction false} BeforeTransitive(a: string, b: string, c: string)
    requires Before(a, b) && Before(b, c)
    ensures Before(a, c)
    decreases |a|
  {
    if a != [] && a[0] == b[0] == c[0] {
      BeforeTransitive(a[1..], b[1..], c[1..]);
    }
  }

  lemma {:induction false} BeforeTotal(a: string, b: string)
    ensures Before(a, b) || a == b || Before(b, a)
    ensures !(Before(a, b) && Before(b, a)) && !Before(a, a)
    decreases |a|
  {
    if a != [] {
      BeforeTotal(a[1..], a[1..]);
      if b != [] && a[0] == b[0] {
        BeforeTotal(a[1..], b[1..]);
        assert a == [a[0]] + a[1..] && b == [b[0]] + b[1..];
      }
    }
  }

  /** The first place where two keys differ decides; a prefix comes first. */
  ghost predicate DiffersAt(a: string, b: string, i: nat) {
    i <= |a| && i < |b| && a[..i] == b[..i] && (i == |a| || a[i] < b[i])
  }

  lemma {:induction false} BeforeIsLexicographic(a: string, b: string)
    ensures Before(a, b) <==> exists i: nat :: DiffersAt(a, b, i)
    decreases |a|
  {
    if a == [] || b == [] || a[0] < b[0] {
      assert b != [] ==> DiffersAt(a, b, 0);
    } else {
      BeforeIsLexicographic(a[1..], b[1..]);
      if Before(a, b) {
        var i: nat :| DiffersAt(a[1..], b[1..], i);
        assert a[..i + 1] == [a[0]] + a[1..][..i] && b[..i + 1] == [b[0]] + b[1..][..i];
        assert DiffersAt(a, b, i + 1);
      }
      if i: nat :| DiffersAt(a, b, i) {
        assert i > 0;
        assert a[..i][0] == a[0] && b[..i][0] == b[0];
        assert a[1..][..i - 1] == a[..i][1..] && b[1..][..i - 1] == b[..i][1..];
        assert DiffersAt(a[1..], b[1..], i - 1);
      }
    }
  }

  // ---------- One account's records ----------

  ghost predicate Sorted(s: seq<Asset>) {
    forall i, j :: 0 <= i < j < |s| ==> Before(Key(s[i]), Key(s[j]))
  }

  function IndexOf(s: seq<Asset>, key: string): (r: Option<nat>)
    ensures r.Some? ==> r.value < |s| && Key(s[r.value]) == key
    ensures r.None? ==> forall i :: 0 <= i < |s| ==> Key(s[i]) != key
  {
    if s == [] then None
    else if Key(s[0]) == key then Some(0)
    else
      match IndexOf(s[1..], key)
      case None =>
        assert forall i :: 1 <= i < |s| ==> s[i] == s[1..][i - 1];
        None
      case Some(i) => Some(i + 1)
  }

  /** In a sorted list the record found is the only one with that key, whatever its amount. */
  lemma LookupIsExact(s: seq<Asset>, key: string, i: nat)
    requires Sorted(s) && i < |s|
    ensures IndexOf(s, key) == Some(i) <==> Key(s[i]) == key
  {
    var r := IndexOf(s, key);
    if Key(s[i]) == key && r != Some(i) {
      BeforeTotal(key, key);
      assert false;
    }
  }

  /** The table's `put`: the record goes to its place in the order, over a record with an equal key. */
  function Put(s: seq<Asset>, a: Asset): (r: seq<Asset>)
    ensures a in r
  {
    if s == [] || Before(Key(a), Key(s[0])) then [a] + s
    else if Key(s[0]) == Key(a) then [a] + s[1..]
    else [s[0]] + Put(s[1..], a)
  }

  /** A record for a new key is added to the others. */
  lemma {:induction false} PutAdds(s: seq<Asset>, a: Asset)
    requires IndexOf(s, Key(a)).None?
    ensures multiset(Put(s, a)) == multiset(s) + multiset{a}
    decreases |s|
  {
    hide Before;
    if s != [] && !Before(Key(a), Key(s[0])) {
      assert s == [s[0]] + s[1..];
      assert Key(s[0]) != Key(a);
      PutAdds(s[1..], a);
    }
  }

  /** A record with an equal key is overwritten where it stands. */
  lemma {:induction false} PutOverwrites(s: seq<Asset>, a: Asset, i: nat)
    requires Sorted(s) && IndexOf(s, Key(a)) == Some(i)
    ensures Put(s, a) == s[i := a]
    decreases |s|
  {
    hide Before;
    if i == 0 {
      BeforeTotal(Key(a), Key(a));
    } else {
      BeforeTotal(Key(s[0]), Key(s[i]));
      PutOverwrites(s[1..], a, i - 1);
      assert s[i := a] == [s[0]] + s[1..][i - 1 := a];
    }
  }

  lemma {:induction false} PutHolds(s: seq<Asset>, a: Asset, i: nat)
    requires i < |Put(s, a)|
    ensures Put(s, a)[i] == a || Put(s, a)[i] in s
    decreases |s|
  {
    if s != [] && !Before(Key(a), Key(s[0])) && Key(s[0]) != Key(a) && i > 0 {
      PutHolds(s[1..], a, i - 1);
    }
  }

  lemma {:induction false} PutKeepsSorted(s: seq<Asset>, a: Asset)
    requires Sorted(s)
    ensures Sorted(Put(s, a))
    decreases |s|
  {
    hide Before;
    if s != [] {
      if Before(Key(a), Key(s[0])) {
        forall j | 0 <= j < |s|
          ensures Before(Key(a), Key(s[j]))
        {
          if j > 0 {
            BeforeTransitive(Key(a), Key(s[0]), Key(s[j]));
          }
        }
      } else if Key(s[0]) != Key(a) {
        PutKeepsSorted(s[1..], a);
        var r := Put(s[1..], a);
        BeforeTotal(Key(a), Key(s[0]));
        forall j | 0 <= j < |r|
          ensures Before(Key(s[0]), Key(r[j]))
        {
          PutHolds(s[1..], a, j);
        }
      }
    }
  }

  function Balance(s: seq<Asset>, key: string): nat {
    match IndexOf(s, key)
    case None => 0
    case Some(i) => s[i].amount
  }

  /** A put sets the balance of its key and no other. */
  lemma {:induction false} PutBalance(s: seq<Asset>, a: Asset, key: string)
    ensures Balance(Put(s, a), key) == if key == Key(a) then a.amount else Balance(s, key)
    decreases |s|
  {
    hide Before;
    if s == [] || Before(Key(a), Key(s[0])) {
      assert ([a] + s)[1..] == s;
    } else if Key(s[0]) == Key(a) {
      assert ([a] + s[1..])[1..] == s[1..];
    } else {
      PutBalance(s[1..], a, key);
      assert Put(s, a)[1..] == Put(s[1..], a);
    }
  }

  /** Overwriting a record under the same key keeps the order and changes one balance. */
  lemma ReplaceKeepsOrder(s: seq<Asset>, i: nat, a: Asset, key: string)
    requires Sorted(s) && i < |s| && Key(a) == Key(s[i])
    ensures Sorted(s[i := a])
    ensures Balance(s[i := a], key) == if key == Key(a) then a.amount else Balance(s, key)
  {
    var r := s[i := a];
    forall j | 0 <= j < |s|
      ensures Key(r[j]) == Key(s[j])
    {
    }
    if key == Key(a) {
      LookupIsExact(r, key, i);
    } else if IndexOf(s, key).Some? {
      LookupIsExact(r, key, IndexOf(s, key).value);
    }
  }
}
