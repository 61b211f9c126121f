/** What the records determine: in every run of the ledger the world state is the replay of the records
    that survive, and the tree runs ahead of them by the leaves of what was rolled back. */
module LedgerLaws {
  import opened Arith
  import opened ChainSpec
  import opened LedgerSpec
  import opened MerkleSpec
  import opened WsvSpec
  import opened WsvLaws
  import opened WsvEffects

  // ---------- The world state ----------

  const EMPTY_WORLD := State(map[], map[], map[], map[])

  function Commands<T>(txs: seq<Tx<T>>): (r: seq<Command>)
    ensures |r| == |txs|
  {
    seq(|txs|, i requires 0 <= i < |txs| => txs[i].command)
  }

  lemma {:induction false} ApplyAllSnoc(s: State, cs: seq<Command>, c: Command)
    ensures ApplyAll(s, cs + [c]) == Apply(ApplyAll(s, cs), c).0
    decreases |cs|
  {
    hide Apply;
    if cs == [] {
      assert ([] + [c])[1..] == [];
    } else {
      ApplyAllSnoc(Apply(s, cs[0]).0, cs[1..], c);
      assert (cs + [c])[1..] == cs[1..] + [c];
    }
  }

  lemma CommandsSnoc<T>(txs: seq<Tx<T>>, tx: Tx<T>)
    ensures Commands(txs + [tx]) == Commands(txs) + [tx.command]
  {
  }

  /** What one append does: it answers what the guards of its command give, stores the record under the
      next number, pushes the leaf unless the store refuses the command, and touches nothing
      committed. */
  lemma AppendEffect<T>(hash: (T, T) -> T, leafs: nat, l: Ledger<T>, tx: Tx<T>)
    requires leafs >= 2
    ensures var (l', out) := AppendTx(hash, leafs, l, tx);
      && out == (if tx.command.Wrong? then Failed(WrongCommand) else Verdict(WorldOf(l), tx.command))
      && WorldOf(l') == Apply(WorldOf(l), tx.command).0
      && l'.total == l.total + 1 && l'.work.records == l.work.records[l.total + 1 := tx]
      && l'.leaves == (if tx.command.Wrong? then l.leaves else NextLeaves(hash, leafs, l.leaves, tx.hash))
      && l'.work.saved == l.work.saved && l'.disk == l.disk
  {
    hide Apply, Verdict;
    OutcomeIsVerdict(WorldOf(l), tx.command);
    AppendAppliesCommand(hash, leafs, l, tx);
  }

  /** In every run the created assets, in memory and in the table, are exactly those that some surviving
      transaction creates; likewise for the committed ones. */
  lemma CreatedByHistory<T>(hash: (T, T) -> T, leafs: nat, ops: seq<LedgerSpec.Op<T>>, key: string)
    requires leafs >= 2
    ensures var l := Run(hash, leafs, ops).0;
      && (key in l.created <==> Names(Commands(History(ops).0), key))
      && (key in l.work.assets <==> Names(Commands(History(ops).0), key))
      && (key in l.disk.assets <==> Names(Commands(History(ops).1), key))
  {
    hide ApplyAll, Run, History, Names;
    WorldIsReplay(hash, leafs, ops);
    CreatedInRun(EMPTY_WORLD, Commands(History(ops).0), key);
    CreatedInRun(EMPTY_WORLD, Commands(History(ops).1), key);
  }

  /** In every run, whatever throws, is committed, rolled back or reopened, the world state is what the
      surviving transactions, replayed in the order of their numbers, make of the empty one: the
      working tables with those not rolled back, the committed ones with those committed. */
  lemma {:induction false} WorldIsReplay<T>(hash: (T, T) -> T, leafs: nat, ops: seq<LedgerSpec.Op<T>>)
    requires leafs >= 2
    ensures var l := Run(hash, leafs, ops).0;
      && WorldOf(l) == ApplyAll(EMPTY_WORLD, Commands(History(ops).0))
      && CommittedWorld(l) == ApplyAll(EMPTY_WORLD, Commands(History(ops).1))
    decreases |ops|
  {
    hide Apply;
    if ops != [] {
      var before := ops[..|ops| - 1];
      WorldIsReplay(hash, leafs, before);
      match ops[|ops| - 1]
      case Append(tx) =>
        CommandsSnoc(History(before).0, tx);
        ApplyAllSnoc(EMPTY_WORLD, Commands(History(before).0), tx.command);
        AppendAppliesCommand(hash, leafs, Run(hash, leafs, before).0, tx);
      case Commit =>
      case Rollback =>
      case Reopen =>
    }
  }

  lemma AppendAppliesCommand<T>(hash: (T, T) -> T, leafs: nat, l: Ledger<T>, tx: Tx<T>)
    requires leafs >= 2
    ensures var l' := AppendTx(hash, leafs, l, tx).0;
      WorldOf(l') == Apply(WorldOf(l), tx.command).0 && l'.disk == l.disk
  {
  }

  /** The supply of an asset is what the surviving transactions brought in: those rolled back have left
      no trace, and a rollback returns every supply to its committed value. */
  lemma SupplyOfHistory<T>(hash: (T, T) -> T, leafs: nat, ops: seq<LedgerSpec.Op<T>>, prec: string -> nat, key: string)
    requires leafs >= 2
    ensures var l := Run(hash, leafs, ops).0;
            var work, disk := Commands(History(ops).0), Commands(History(ops).1);
      && (LegalRun(EMPTY_WORLD, work, prec) ==>
            Sound(WorldOf(l), prec) && Total(WorldOf(l), key) == TotalFlow(EMPTY_WORLD, work, key))
      && (LegalRun(EMPTY_WORLD, disk, prec) ==>
            Sound(CommittedWorld(l), prec) && Total(CommittedWorld(l), key) == TotalFlow(EMPTY_WORLD, disk, key))
      && Total(WorldOf(Run(hash, leafs, ops + [LedgerSpec.Op<T>.Rollback]).0), key) == Total(CommittedWorld(l), key)
  {
    hide Sound, Total, TotalFlow, LegalRun, ApplyAll;
    WorldIsReplay(hash, leafs, ops);
    EmptyWorldIsSound(prec, key);
    var work, disk := Commands(History(ops).0), Commands(History(ops).1);
    if LegalRun(EMPTY_WORLD, work, prec) {
      RunConserves(EMPTY_WORLD, work, prec, key);
    }
    if LegalRun(EMPTY_WORLD, disk, prec) {
      RunConserves(EMPTY_WORLD, disk, prec, key);
    }
    assert (ops + [LedgerSpec.Op<T>.Rollback])[..|ops|] == ops;
  }

  lemma EmptyWorldIsSound(prec: string -> nat, key: string)
    ensures Sound(EMPTY_WORLD, prec) && Total(EMPTY_WORLD, key) == 0
  {
    forall k
      ensures Total(EMPTY_WORLD, k) == 0
    {
      assert Balances(map[], k) == map[];
    }
  }

  // ---------- The tree ----------

  /** The leaves that survive of each record's: what the tree would hold if it followed the records. */
  function LeavesOf<T>(txs: seq<Tx<T>>): seq<T>
    decreases |txs|
  {
    if txs == [] then []
    else
      var tx := txs[|txs| - 1];
      LeavesOf(txs[..|txs| - 1]) + if tx.command.Wrong? then [] else [tx.hash]
  }

  /** How many leaves the tree holds beyond those of the records, in memory and as saved. */
  ghost function Ghosts<T>(ops: seq<LedgerSpec.Op<T>>): (int, int) {
    (|Pushed(ops).0| - |LeavesOf(History(ops).0)|, |Pushed(ops).1| - |LeavesOf(History(ops).1)|)
  }

  lemma {:induction false} PushedExtends<T>(ops: seq<LedgerSpec.Op<T>>)
    ensures Pushed(ops).1 <= Pushed(ops).0
    decreases |ops|
  {
    if ops != [] {
      PushedExtends(ops[..|ops| - 1]);
    }
  }

  /** One operation: an append adds no ghost, a rollback leaves those of the leaves pushed since the
      last commit, a commit saves what there are, and a reopening goes back to the saved ones. */
  lemma GhostStep<T>(ops: seq<LedgerSpec.Op<T>>, op: LedgerSpec.Op<T>)
    ensures var (memory, saved) := Ghosts(ops);
      Ghosts(ops + [op]) ==
        match op
        case Append(_) => (memory, saved)
        case Commit => (memory, memory)
        case Rollback => (saved + (|Pushed(ops).0| - |Pushed(ops).1|), saved)
        case Reopen => (saved, saved)
  {
    assert (ops + [op])[..|ops|] == ops;
    match op
    case Append(tx) =>
      assert (History(ops).0 + [tx])[..|History(ops).0|] == History(ops).0;
    case Commit =>
    case Rollback =>
    case Reopen =>
  }

  lemma {:induction false} SavedBelowMemory<T>(ops: seq<LedgerSpec.Op<T>>)
    ensures 0 <= Ghosts(ops).1 <= Ghosts(ops).0
    decreases |ops|
  {
    if ops != [] {
      var before := ops[..|ops| - 1];
      SavedBelowMemory(before);
      GhostStep(before, ops[|ops| - 1]);
      PushedExtends(before);
      assert before + [ops[|ops| - 1]] == ops;
    }
  }

  /** Saved ghosts never go away: once a commit follows a rollback that left leaves behind, the saved
      leaves outnumber the records' for good, whatever is done later. */
  lemma {:induction false} GhostsStay<T>(ops: seq<LedgerSpec.Op<T>>, more: seq<LedgerSpec.Op<T>>)
    ensures 0 <= Ghosts(ops).1 <= Ghosts(ops + more).1 <= Ghosts(ops + more).0
    decreases |more|
  {
    hide Ghosts;
    SavedBelowMemory(ops + more);
    SavedBelowMemory(ops);
    if more == [] {
      assert ops + more == ops;
    } else {
      var less := more[..|more| - 1];
      GhostsStay(ops, less);
      GhostStep(ops + less, more[|more| - 1]);
      assert ops + less + [more[|more| - 1]] == ops + more;
    }
  }

  /** Without ghosts the leaves are exactly those of the records. */
  lemma {:induction false} NoGhostsInStep<T>(ops: seq<LedgerSpec.Op<T>>)
    ensures Ghosts(ops).0 == 0 <==> Pushed(ops).0 == LeavesOf(History(ops).0)
    ensures Ghosts(ops).1 == 0 <==> Pushed(ops).1 == LeavesOf(History(ops).1)
    decreases |ops|
  {
    if ops != [] {
      var before := ops[..|ops| - 1];
      NoGhostsInStep(before);
      SavedBelowMemory(before);
      PushedExtends(before);
      match ops[|ops| - 1]
      case Append(tx) =>
        assert (History(before).0 + [tx])[..|History(before).0|] == History(before).0;
      case Commit =>
      case Rollback =>
      case Reopen =>
    }
  }

  lemma {:induction false} LeavesAreHashes<T>(txs: seq<Tx<T>>, records: map<nat, Tx<T>>)
    requires forall k: nat :: 1 <= k <= |txs| ==> k in records && records[k] == txs[k - 1]
    ensures LeavesOf(txs) == Hashes(records, |txs|)
    decreases |txs|
  {
    if txs != [] {
      LeavesAreHashes(txs[..|txs| - 1], records);
    }
  }

  /** In every run without ghosts, in memory and saved, the tree reflects exactly the stored records. */
  lemma InStepWithoutGhosts<T>(hash: (T, T) -> T, leafs: nat, ops: seq<LedgerSpec.Op<T>>)
    requires leafs >= 2 && Ghosts(ops) == (0, 0)
    ensures var (l, committed) := Run(hash, leafs, ops);
      Aligned(hash, leafs, l, committed)
  {
    hide Ghosts, CurrentLeaves, Run, History, Pushed;
    var (l, committed) := Run(hash, leafs, ops);
    RootOfPushed(hash, leafs, ops);
    RecordsAreHistory(hash, leafs, ops);
    NoGhostsInStep(ops);
    LeavesAreHashes(History(ops).0, l.work.records);
    LeavesAreHashes(History(ops).1, l.disk.records);
  }

  // ---------- When a rollback keeps the tree ----------

  lemma {:induction false} CurrentSize<T>(hash: (T, T) -> T, leafs: nat, seed: T, rest: seq<T>)
    requires leafs >= 2
    ensures |Current(hash, leafs, seed, rest)| == 1 + |rest| % (leafs - 1)
    decreases |rest|
  {
    hide Root;
    if |rest| < leafs - 1 {
      DivUnique(|rest|, leafs - 1, 0, |rest|);
    } else {
      CurrentSize(hash, leafs, Root(hash, [seed] + rest[..leafs - 1]), rest[leafs - 1..]);
      SameRemainder(|rest|, leafs - 1);
    }
  }

  lemma DifferentSizes<T>(hash: (T, T) -> T, leafs: nat, a: seq<T>, b: seq<T>)
    requires leafs >= 2 && a != [] && b != [] && (|b| - |a|) % (leafs - 1) != 0
    ensures |CurrentLeaves(hash, leafs, a)| != |CurrentLeaves(hash, leafs, b)|
  {
    CurrentSize(hash, leafs, a[0], a[1..]);
    CurrentSize(hash, leafs, b[0], b[1..]);
    DifferentRemainders(|a| - 1, |b| - 1, leafs - 1);
  }

  /** When whole blocks were pushed on top of the saved leaves, the new block has another seed than the
      saved one. Seeds are roots of blocks, so this can fail only if two of them have equal roots, or if
      the root of a block equals the first item. */
  ghost predicate NoSeedCollision<T>(leafs: nat, l: Ledger<T>, ops: seq<LedgerSpec.Op<T>>)
    requires leafs >= 2
  {
    var pending := |Pushed(ops).0| - |Pushed(ops).1|;
    pending > 0 && pending % (leafs - 1) == 0 && l.leaves != [] && l.disk.saved != [] ==>
      l.leaves[0] != l.disk.saved[0]
  }

  /** In every run, without a collision of seeds, the tree reflects the records after a rollback if and
      only if the saved leaves do and no leaf was pushed since they were saved, however many blocks were
      filled, and whether or not earlier rollbacks have left leaves behind. */
  lemma RollbackKeepsTreeIff<T>(hash: (T, T) -> T, leafs: nat, ops: seq<LedgerSpec.Op<T>>)
    requires leafs >= 2 && NoSeedCollision(leafs, Run(hash, leafs, ops).0, ops)
    ensures var (l, committed) := Run(hash, leafs, ops);
            var l' := RollbackTables(l, committed);
      Mirrors(l', committed) &&
      (Aligned(hash, leafs, l', committed) <==>
         SavedAligned(hash, leafs, l, committed) && Pushed(ops).0 == Pushed(ops).1)
  {
    hide CurrentLeaves, Run, Pushed, Hashes;
    var (l, committed) := Run(hash, leafs, ops);
    RollbackKeepsTreeIffSaved(hash, leafs, l, committed);
    RootOfPushed(hash, leafs, ops);
    PushedExtends(ops);
    var all, kept := Pushed(ops).0, Pushed(ops).1;
    if l.leaves == l.disk.saved && |all| != |kept| {
      NothingMatches(hash, leafs, kept, all, l, ops);
    }
  }

  lemma NothingMatches<T>(hash: (T, T) -> T, leafs: nat, kept: seq<T>, all: seq<T>, l: Ledger<T>,
        ops: seq<LedgerSpec.Op<T>>)
    requires leafs >= 2 && NoSeedCollision(leafs, l, ops)
    requires (all, kept) == Pushed(ops) && |kept| < |all|
    requires l.leaves == CurrentLeaves(hash, leafs, all) && l.disk.saved == CurrentLeaves(hash, leafs, kept)
    ensures l.leaves != l.disk.saved
  {
    if kept != [] && (|all| - |kept|) % (leafs - 1) != 0 {
      DifferentSizes(hash, leafs, kept, all);
    }
  }
}
