/** The ledger: a transaction store with a Merkle tree, a world state, and a database that is either
    committed or rolled back. */
module LedgerSpec {
  import opened MerkleSpec
  import opened ChainSpec
  import opened World
  import opened WsvSpec

  datatype Tx<T> = Tx(hash: T, command: Command)

  /** What one database transaction sees: transaction records, saved leaves of the last Merkle block,
      and the tables of the world state. */
  datatype Tables<T> = Tables(
    records: map<nat, Tx<T>>,
    saved: seq<T>,
    assets: map<string, Asset>,
    accounts: map<string, string>,
    holdings: map<string, seq<Asset>>)

  /** The working and the committed tables, and what is kept in memory besides: the number of the last
      record, the created assets, and the leaves of the Merkle block being filled. */
  datatype Ledger<T> = Ledger(
    work: Tables<T>,
    disk: Tables<T>,
    total: nat,
    created: map<string, Asset>,
    leaves: seq<T>)

  datatype Op<T> = Append(tx: Tx<T>) | Commit | Rollback | Reopen

  function EmptyTables<T>(): Tables<T> {
    Tables(map[], [], map[], map[], map[])
  }

  /** The largest record key, 0 when there is none. */
  ghost predicate IsLastKey<V>(m: map<nat, V>, k: nat) {
    (forall j :: j in m ==> j <= k) && (if m == map[] then k == 0 else k in m)
  }

  function WorldOf<T>(l: Ledger<T>): State {
    State(l.work.assets, l.work.accounts, l.work.holdings, l.created)
  }

  /** The world state as a new transaction reads it from the committed tables. */
  function CommittedWorld<T>(l: Ledger<T>): State {
    State(l.disk.assets, l.disk.accounts, l.disk.holdings, l.disk.assets)
  }

  /** A record is stored under the next number before anything can throw; then the leaf is pushed,
      unless the store refuses the command; then the world state is updated, which may throw too. */
  function AppendTx<T>(hash: (T, T) -> T, leafs: nat, l: Ledger<T>, tx: Tx<T>): (Ledger<T>, Outcome)
    requires leafs >= 2
  {
    var work := l.work.(records := l.work.records[l.total + 1 := tx]);
    if tx.command.Wrong? then
      (l.(work := work, total := l.total + 1), Failed(WrongCommand))
    else
      var (w, out) := Apply(WorldOf(l), tx.command);
      (l.(work := work.(assets := w.assets, accounts := w.accounts, holdings := w.holdings),
          total := l.total + 1,
          created := w.created,
          leaves := NextLeaves(hash, leafs, l.leaves, tx.hash)), out)
  }

  function CommitTables<T>(l: Ledger<T>): Ledger<T> {
    var tables := l.work.(saved := l.leaves);
    l.(work := tables, disk := tables)
  }

  /** The mirrors are read again from the committed tables; the Merkle tree is left as it is. */
  function RollbackTables<T>(l: Ledger<T>, last: nat): Ledger<T> {
    l.(work := l.disk, total := last, created := l.disk.assets)
  }

  /** A new process starts from the committed tables and pushes the saved leaves into a new tree. */
  function ReopenTables<T>(l: Ledger<T>, last: nat): Ledger<T> {
    Ledger(l.disk, l.disk, last, l.disk.assets, l.disk.saved)
  }

  // ---------- Records and their hashes ----------

  /** Records are numbered 1 to n without a gap. */
  ghost predicate Numbered<T>(records: map<nat, Tx<T>>, n: nat) {
    forall k: nat :: k in records <==> 1 <= k <= n
  }

  /** The hashes of records 1 to n that have a leaf, in order. */
  function Hashes<T>(records: map<nat, Tx<T>>, n: nat): seq<T>
    requires forall k: nat :: 1 <= k <= n ==> k in records
    decreases n
  {
    if n == 0 then []
    else if records[n].command.Wrong? then Hashes(records, n - 1)
    else Hashes(records, n - 1) + [records[n].hash]
  }

  lemma {:induction false} HashesOfMore<T>(records: map<nat, Tx<T>>, n: nat, k: nat, tx: Tx<T>)
    requires (forall j: nat :: 1 <= j <= n ==> j in records) && n < k
    ensures Hashes(records[k := tx], n) == Hashes(records, n)
    decreases n
  {
    if n > 0 {
      HashesOfMore(records, n - 1, k, tx);
    }
  }

  // ---------- What every operation keeps ----------

  /** The mirrors agree with the tables: numbered records with the last number in memory, and created
      assets equal to their table. Committed records are never rewritten. */
  ghost predicate Mirrors<T>(l: Ledger<T>, committed: nat) {
    && Numbered(l.work.records, l.total) && Numbered(l.disk.records, committed)
    && committed <= l.total
    && (forall k: nat :: 1 <= k <= committed ==> l.work.records[k] == l.disk.records[k])
    && l.created == l.work.assets
  }

  lemma LastOfNumbered<T>(records: map<nat, Tx<T>>, n: nat, k: nat)
    requires Numbered(records, n)
    ensures IsLastKey(records, k) <==> k == n
  {
    if n == 0 {
      assert records.Keys == {};
    } else {
      assert n in records;
    }
  }

  lemma AppendKeepsMirrors<T>(hash: (T, T) -> T, leafs: nat, l: Ledger<T>, committed: nat, tx: Tx<T>)
    requires leafs >= 2 && Mirrors(l, committed)
    ensures var (l', out) := AppendTx(hash, leafs, l, tx);
      Mirrors(l', committed) && l'.total == l.total + 1 && l'.disk == l.disk
      && l'.work.records == l.work.records[l'.total := tx]
  {
    CreatedFollowsTable(WorldOf(l), tx.command);
  }

  lemma CreatedFollowsTable(s: State, c: Command)
    requires s.created == s.assets
    ensures Apply(s, c).0.created == Apply(s, c).0.assets
  {
  }

  /** The Merkle tree reflects exactly the stored records that have a leaf, in memory and on disk. */
  ghost predicate Aligned<T>(hash: (T, T) -> T, leafs: nat, l: Ledger<T>, committed: nat)
    requires leafs >= 2 && Mirrors(l, committed)
  {
    && l.leaves == CurrentLeaves(hash, leafs, Hashes(l.work.records, l.total))
    && l.disk.saved == CurrentLeaves(hash, leafs, Hashes(l.disk.records, committed))
  }

  lemma AppendKeepsAligned<T>(hash: (T, T) -> T, leafs: nat, l: Ledger<T>, committed: nat, tx: Tx<T>)
    requires leafs >= 2 && Mirrors(l, committed) && Aligned(hash, leafs, l, committed)
    ensures var l' := AppendTx(hash, leafs, l, tx).0;
      Mirrors(l', committed) && Aligned(hash, leafs, l', committed)
  {
    AppendKeepsMirrors(hash, leafs, l, committed, tx);
    HashesOfMore(l.work.records, l.total, l.total + 1, tx);
    LeavesSnoc(hash, leafs, Hashes(l.work.records, l.total), tx.hash);
  }

  // ---------- Runs ----------

  /** The ledger after a run and the number of records committed so far. `last` numbers come from the
      tables themselves. */
  ghost function Run<T>(hash: (T, T) -> T, leafs: nat, ops: seq<Op<T>>): (r: (Ledger<T>, nat))
    requires leafs >= 2
    ensures Mirrors(r.0, r.1)
    decreases |ops|
  {
    if ops == [] then
      (Ledger(EmptyTables(), EmptyTables(), 0, map[], []), 0)
    else
      var (l, committed) := Run(hash, leafs, ops[..|ops| - 1]);
      match ops[|ops| - 1]
      case Append(tx) =>
        AppendKeepsMirrors(hash, leafs, l, committed, tx);
        (AppendTx(hash, leafs, l, tx).0, committed)
      case Commit => (CommitTables(l), l.total)
      case Rollback => (RollbackTables(l, committed), committed)
      case Reopen => (ReopenTables(l, committed), committed)
  }

  /** In every run, whatever throws and whatever is rolled back, the number in memory is the largest
      record key, records are numbered from 1 without a gap, and the created assets in memory are
      those of the table. Right after a rollback or a reopening they are those of the last commit. */
  lemma MirrorsAlwaysAgree<T>(hash: (T, T) -> T, leafs: nat, ops: seq<Op<T>>)
    requires leafs >= 2
    ensures var (l, committed) := Run(hash, leafs, ops);
      && IsLastKey(l.work.records, l.total) && IsLastKey(l.disk.records, committed)
      && l.created == l.work.assets
      && (ops != [] && (ops[|ops| - 1].Rollback? || ops[|ops| - 1].Reopen?) ==>
            IsLastKey(l.disk.records, l.total) && l.created == l.disk.assets)
  {
    var (l, committed) := Run(hash, leafs, ops);
    LastOfNumbered(l.work.records, l.total, l.total);
    LastOfNumbered(l.disk.records, committed, committed);
  }

  /** Without a rollback the Merkle root is, at every moment of every run, the chained root of the
      stored records that have a leaf, in the order of their numbers. */
  lemma {:induction false} RootOfRecords<T>(hash: (T, T) -> T, leafs: nat, ops: seq<Op<T>>)
    requires leafs >= 2 && forall i :: 0 <= i < |ops| ==> !ops[i].Rollback?
    ensures var (l, committed) := Run(hash, leafs, ops);
            var hashes := Hashes(l.work.records, l.total);
      && Aligned(hash, leafs, l, committed)
      && (l.leaves == [] <==> hashes == [])
      && (hashes != [] ==> Root(hash, l.leaves) == ChainRoot(hash, leafs, hashes))
    decreases |ops|
  {
    if ops != [] {
      var before := ops[..|ops| - 1];
      assert forall i :: 0 <= i < |before| ==> before[i] == ops[i];
      RootOfRecords(hash, leafs, before);
      var (l, committed) := Run(hash, leafs, before);
      match ops[|ops| - 1]
      case Append(tx) => AppendKeepsAligned(hash, leafs, l, committed, tx);
      case Commit =>
      case Reopen =>
    }
  }

  /** The leaves pushed so far, in memory and as they were at the last commit. A rollback takes none of
      them back; reopening goes back to those of the last commit. */
  function Pushed<T>(ops: seq<Op<T>>): (seq<T>, seq<T>)
    decreases |ops|
  {
    if ops == [] then ([], [])
    else
      var (memory, disk) := Pushed(ops[..|ops| - 1]);
      match ops[|ops| - 1]
      case Append(tx) => (if tx.command.Wrong? then memory else memory + [tx.hash], disk)
      case Commit => (memory, memory)
      case Rollback => (memory, disk)
      case Reopen => (disk, disk)
  }

  /** What the tree shows in every run, rollbacks included: the chained root of all leaves pushed since
      the database was last opened, on top of those committed before. */
  lemma {:induction false} RootOfPushed<T>(hash: (T, T) -> T, leafs: nat, ops: seq<Op<T>>)
    requires leafs >= 2
    ensures var l := Run(hash, leafs, ops).0;
      && l.leaves == CurrentLeaves(hash, leafs, Pushed(ops).0)
      && l.disk.saved == CurrentLeaves(hash, leafs, Pushed(ops).1)
      && (Pushed(ops).0 != [] ==> Root(hash, l.leaves) == ChainRoot(hash, leafs, Pushed(ops).0))
    decreases |ops|
  {
    if ops != [] {
      var before := ops[..|ops| - 1];
      RootOfPushed(hash, leafs, before);
      match ops[|ops| - 1]
      case Append(tx) => LeavesSnoc(hash, leafs, Pushed(before).0, tx.hash);
      case Commit =>
      case Rollback =>
      case Reopen =>
    }
  }

  /** The transactions whose records survive a run, in order: those in the working tables and those
      committed. */
  function History<T>(ops: seq<Op<T>>): (seq<Tx<T>>, seq<Tx<T>>)
    decreases |ops|
  {
    if ops == [] then ([], [])
    else
      var (work, disk) := History(ops[..|ops| - 1]);
      match ops[|ops| - 1]
      case Append(tx) => (work + [tx], disk)
      case Commit => (work, work)
      case Rollback => (disk, disk)
      case Reopen => (disk, disk)
  }

  /** Record k of the store is the k-th surviving transaction, in every run. */
  lemma {:induction false} RecordsAreHistory<T>(hash: (T, T) -> T, leafs: nat, ops: seq<Op<T>>)
    requires leafs >= 2
    ensures var (l, committed) := Run(hash, leafs, ops);
            var (work, disk) := History(ops);
      && |work| == l.total && |disk| == committed
      && (forall k: nat :: 1 <= k <= l.total ==> l.work.records[k] == work[k - 1])
      && (forall k: nat :: 1 <= k <= committed ==> l.disk.records[k] == disk[k - 1])
    decreases |ops|
  {
    hide AppendTx;
    if ops != [] {
      var before := ops[..|ops| - 1];
      RecordsAreHistory(hash, leafs, before);
      match ops[|ops| - 1]
      case Append(tx) => AppendKeepsMirrors(hash, leafs, Run(hash, leafs, before).0, Run(hash, leafs, before).1, tx);
      case Commit =>
      case Rollback =>
      case Reopen =>
    }
  }

  /** Every appended command adds only assets that are created at that moment. */
  ghost predicate RunOnCreated<T>(hash: (T, T) -> T, leafs: nat, ops: seq<Op<T>>)
    requires leafs >= 2
    decreases |ops|
  {
    ops == [] ||
    (&& RunOnCreated(hash, leafs, ops[..|ops| - 1])
     && var l := Run(hash, leafs, ops[..|ops| - 1]).0;
        var op := ops[|ops| - 1];
        op.Append? && !op.tx.command.Wrong? ==> OnCreated(WorldOf(l), op.tx.command))
  }

  /** Account lists stay sorted through failures, commits, rollbacks and reopenings, in the working and
      in the committed tables. While only created assets are added, they name created assets only: a
      rollback takes back the creation of an asset together with all holdings of it. */
  lemma {:induction false} WorldStaysGood<T>(hash: (T, T) -> T, leafs: nat, ops: seq<Op<T>>)
    requires leafs >= 2
    ensures var l := Run(hash, leafs, ops).0;
      && Good(WorldOf(l)) && Good(CommittedWorld(l))
      && (RunOnCreated(hash, leafs, ops) ==> Named(WorldOf(l)) && Named(CommittedWorld(l)))
    decreases |ops|
  {
    hide Good, Named, Apply;
    if ops == [] {
      EmptyWorldIsGood();
    } else {
      WorldStaysGood(hash, leafs, ops[..|ops| - 1]);
      var (l, committed) := Run(hash, leafs, ops[..|ops| - 1]);
      if ops[|ops| - 1].Append? {
        var tx := ops[|ops| - 1].tx;
        ApplyKeepsGood(WorldOf(l), tx.command);
        if OnCreated(WorldOf(l), tx.command) && Named(WorldOf(l)) {
          ApplyKeepsNamed(WorldOf(l), tx.command);
        }
      }
    }
  }

  lemma EmptyWorldIsGood()
    ensures Good(State(map[], map[], map[], map[])) && Named(State(map[], map[], map[], map[]))
  {
  }

  // ---------- Batches ----------

  /** A batch appends its transactions one after the other and stops at the first that fails. */
  function AppendBatch<T>(hash: (T, T) -> T, leafs: nat, l: Ledger<T>, txs: seq<Tx<T>>): (Ledger<T>, Outcome)
    requires leafs >= 2
    decreases |txs|
  {
    if txs == [] then (l, Done)
    else
      var (l', out) := AppendTx(hash, leafs, l, txs[0]);
      if out.Failed? then (l', out) else AppendBatch(hash, leafs, l', txs[1..])
  }

  /** A batch is not atomic: a batch that fails has stored the transactions before the failing one, and
      the failing one as well, under consecutive numbers. */
  lemma {:induction false} BatchStoresPrefix<T>(hash: (T, T) -> T, leafs: nat, l: Ledger<T>, committed: nat,
        txs: seq<Tx<T>>)
    requires leafs >= 2 && Mirrors(l, committed)
    ensures var (l', out) := AppendBatch(hash, leafs, l, txs);
            var stored := l'.total - l.total;
      && Mirrors(l', committed) && 0 <= stored <= |txs|
      && (if out == Done then stored == |txs| else stored >= 1)
      && (forall i :: 0 <= i < stored ==> l'.work.records[l.total + 1 + i] == txs[i])
      && (forall k: nat :: 1 <= k <= l.total ==> l'.work.records[k] == l.work.records[k])
    decreases |txs|
  {
    hide AppendTx;
    if txs != [] {
      AppendKeepsMirrors(hash, leafs, l, committed, txs[0]);
      var (l1, out) := AppendTx(hash, leafs, l, txs[0]);
      if out == Done {
        BatchStoresPrefix(hash, leafs, l1, committed, txs[1..]);
        var l' := AppendBatch(hash, leafs, l, txs).0;
        forall i | 0 <= i < l'.total - l.total
          ensures l'.work.records[l.total + 1 + i] == txs[i]
        {
          if i > 0 {
            assert l'.work.records[l1.total + 1 + (i - 1)] == txs[1..][i - 1];
          }
        }
      }
    }
  }

  /** The ledger after the transactions are appended one after the other, whatever fails. */
  function AppendEach<T>(hash: (T, T) -> T, leafs: nat, l: Ledger<T>, txs: seq<Tx<T>>): Ledger<T>
    requires leafs >= 2
    decreases |txs|
  {
    if txs == [] then l
    else AppendTx(hash, leafs, AppendEach(hash, leafs, l, txs[..|txs| - 1]), txs[|txs| - 1]).0
  }

  lemma {:induction false} AppendEachFront<T>(hash: (T, T) -> T, leafs: nat, l: Ledger<T>, txs: seq<Tx<T>>)
    requires leafs >= 2 && txs != []
    ensures AppendEach(hash, leafs, l, txs)
         == AppendEach(hash, leafs, AppendTx(hash, leafs, l, txs[0]).0, txs[1..])
    decreases |txs|
  {
    hide AppendTx;
    if |txs| == 1 {
      assert txs[..0] == [] && txs[1..] == [];
    } else {
      AppendEachFront(hash, leafs, l, txs[..|txs| - 1]);
      assert txs[..|txs| - 1][1..] == txs[1..][..|txs| - 2];
    }
  }

  /** Transaction i of a batch, appended after those before it, answers out. */
  ghost predicate Answers<T>(hash: (T, T) -> T, leafs: nat, l: Ledger<T>, txs: seq<Tx<T>>, i: nat, out: Outcome)
    requires leafs >= 2 && i < |txs|
  {
    AppendTx(hash, leafs, AppendEach(hash, leafs, l, txs[..i]), txs[i]).1 == out
  }

  lemma AnswersFront<T>(hash: (T, T) -> T, leafs: nat, l: Ledger<T>, txs: seq<Tx<T>>, i: nat, out: Outcome)
    requires leafs >= 2 && 1 <= i < |txs|
    ensures Answers(hash, leafs, l, txs, i, out) <==>
              Answers(hash, leafs, AppendTx(hash, leafs, l, txs[0]).0, txs[1..], i - 1, out)
  {
    hide AppendTx;
    AppendEachFront(hash, leafs, l, txs[..i]);
    assert txs[..i][1..] == txs[1..][..i - 1];
  }

  /** A batch stops at its first failure: the transactions stored are those up to it, each but the last
      succeeded on its own, the last one gave the answer, and the ledger is that of appending those
      alone, one by one. */
  lemma {:induction false} BatchStopsAtFailure<T>(hash: (T, T) -> T, leafs: nat, l: Ledger<T>, txs: seq<Tx<T>>)
    requires leafs >= 2
    ensures var (l', out) := AppendBatch(hash, leafs, l, txs);
            var stored := l'.total - l.total;
      && 0 <= stored <= |txs|
      && l' == AppendEach(hash, leafs, l, txs[..stored])
      && (out == Done ==> stored == |txs| && forall i :: 0 <= i < stored ==> Answers(hash, leafs, l, txs, i, Done))
      && (out.Failed? ==>
            && stored >= 1 && Answers(hash, leafs, l, txs, stored - 1, out)
            && forall i :: 0 <= i < stored - 1 ==> Answers(hash, leafs, l, txs, i, Done))
    decreases |txs|
  {
    hide AppendTx, Answers;
    if txs == [] {
      assert txs[..0] == [];
    } else {
      FirstAnswer(hash, leafs, l, txs);
      var (l1, out1) := AppendTx(hash, leafs, l, txs[0]);
      if out1.Failed? {
        assert txs[..1] == [txs[0]] && [txs[0]][..0] == [];
        assert AppendEach(hash, leafs, l, []) == l;
      } else {
        var (l', out) := AppendBatch(hash, leafs, l, txs);
        BatchStopsAtFailure(hash, leafs, l1, txs[1..]);
        var stored := l'.total - l.total;
        AppendEachFront(hash, leafs, l, txs[..stored]);
        assert txs[..stored][1..] == txs[1..][..stored - 1];
        forall i: nat, o: Outcome | 1 <= i < |txs|
          ensures Answers(hash, leafs, l, txs, i, o) <==> Answers(hash, leafs, l1, txs[1..], i - 1, o)
        {
          AnswersFront(hash, leafs, l, txs, i, o);
        }
      }
    }
  }

  lemma FirstAnswer<T>(hash: (T, T) -> T, leafs: nat, l: Ledger<T>, txs: seq<Tx<T>>)
    requires leafs >= 2 && txs != []
    ensures Answers(hash, leafs, l, txs, 0, AppendTx(hash, leafs, l, txs[0]).1)
    ensures AppendTx(hash, leafs, l, txs[0]).0.total == l.total + 1
  {
    assert txs[..0] == [];
  }

  function Appends<T>(txs: seq<Tx<T>>): (ops: seq<Op<T>>)
    ensures |ops| == |txs|
  {
    seq(|txs|, i requires 0 <= i < |txs| => Append(txs[i]))
  }

  lemma {:induction false} RunOfAppends<T>(hash: (T, T) -> T, leafs: nat, ops: seq<Op<T>>, txs: seq<Tx<T>>)
    requires leafs >= 2
    ensures Run(hash, leafs, ops + Appends(txs)) ==
              (AppendEach(hash, leafs, Run(hash, leafs, ops).0, txs), Run(hash, leafs, ops).1)
    decreases |txs|
  {
    hide AppendTx;
    if txs == [] {
      assert ops + Appends(txs) == ops;
    } else {
      var less := txs[..|txs| - 1];
      RunOfAppends(hash, leafs, ops, less);
      var all := ops + Appends(txs);
      assert all[..|all| - 1] == ops + Appends(less);
      assert all[|all| - 1] == Append(txs[|txs| - 1]);
    }
  }

  /** In a run a batch is the run of appends of the transactions it stores, and the leaves it leaves have
      as root the chained root of all leaves pushed. */
  lemma BatchInRun<T>(hash: (T, T) -> T, leafs: nat, ops: seq<Op<T>>, txs: seq<Tx<T>>)
    requires leafs >= 2
    ensures var (l, committed) := Run(hash, leafs, ops);
            var l' := AppendBatch(hash, leafs, l, txs).0;
            var stored := l'.total - l.total;
      0 <= stored <= |txs| &&
      var ops' := ops + Appends(txs[..stored]);
      && Run(hash, leafs, ops') == (l', committed)
      && (Pushed(ops').0 == [] <==> l'.leaves == [])
      && (Pushed(ops').0 != [] ==> Root(hash, l'.leaves) == ChainRoot(hash, leafs, Pushed(ops').0))
  {
    hide AppendTx, AppendBatch, AppendEach, Run, Answers, Pushed, Root;
    var l := Run(hash, leafs, ops).0;
    BatchStopsAtFailure(hash, leafs, l, txs);
    var stored := AppendBatch(hash, leafs, l, txs).0.total - l.total;
    RunOfAppends(hash, leafs, ops, txs[..stored]);
    RootOfPushed(hash, leafs, ops + Appends(txs[..stored]));
  }

  // ---------- Commit, reopen, roll back ----------

  /** A ledger that is committed and opened again is the committed ledger, so nothing done to it later
      can differ; and the saved leaves, pushed one by one into a new tree, never fill a block. This
      holds even when the tree does not reflect the records. */
  lemma CommitThenReopen<T>(hash: (T, T) -> T, leafs: nat, l: Ledger<T>, committed: nat, n: nat)
    requires leafs >= 2 && Mirrors(l, committed) && n <= |l.leaves| < leafs
    ensures ReopenTables(CommitTables(l), l.total) == CommitTables(l)
    ensures CommitTables(l).leaves == l.leaves && CommitTables(l).work.records == l.work.records
    ensures CurrentLeaves(hash, leafs, CommitTables(l).disk.saved[..n]) == l.leaves[..n]
  {
    LeavesAreTheirOwnHistory(hash, leafs, l.leaves, n);
  }

  /** The saved leaves are those of the committed records. */
  ghost predicate SavedAligned<T>(hash: (T, T) -> T, leafs: nat, l: Ledger<T>, committed: nat)
    requires leafs >= 2 && Mirrors(l, committed)
  {
    l.disk.saved == CurrentLeaves(hash, leafs, Hashes(l.disk.records, committed))
  }

  /** `rollback` does not touch the Merkle tree: the tree reflects the records afterwards if and only if
      the saved leaves are those of the committed records and the leaves in memory are the saved ones,
      whether it reflected them before or not. A reopening needs the first alone. */
  lemma RollbackKeepsTreeIffSaved<T>(hash: (T, T) -> T, leafs: nat, l: Ledger<T>, committed: nat)
    requires leafs >= 2 && Mirrors(l, committed)
    ensures var l' := RollbackTables(l, committed);
      Mirrors(l', committed) &&
      (Aligned(hash, leafs, l', committed) <==>
         SavedAligned(hash, leafs, l, committed) && l.leaves == l.disk.saved)
    ensures var l' := ReopenTables(l, committed);
      Mirrors(l', committed) && (Aligned(hash, leafs, l', committed) <==> SavedAligned(hash, leafs, l, committed))
  {
  }

  /** One transaction, rolled back: no record is left, but its leaf is. */
  lemma RollbackLeavesTheLeaf<T>(hash: (T, T) -> T, leafs: nat, tx: Tx<T>)
    requires leafs >= 2 && !tx.command.Wrong?
    ensures var (l, committed) := Run(hash, leafs, [Append(tx), Rollback]);
      l.total == 0 && l.work.records == map[] && l.leaves == [tx.hash]
  {
    var ops := [Append(tx), Rollback];
    assert ops[..1] == [Append(tx)] && [Append(tx)][..0] == [];
    assert Run<T>(hash, leafs, []) == (Ledger(EmptyTables(), EmptyTables(), 0, map[], []), 0);
    var (l, committed) := Run(hash, leafs, [Append(tx)]);
    assert l.leaves == [tx.hash];
  }
}
