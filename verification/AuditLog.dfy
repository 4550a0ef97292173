/** The audit tables: appending, archiving, verifying and the back-fill migration
    (Backend/src/audit/audit.service.ts,
    Backend/src/database/migrations/1781827200000-AddAuditIntegrityChain.ts). */
module AuditLog {
  import opened Wrappers
  import opened Sorting
  import opened AuditChain
  import opened AuditTables

  /** The entry has a new id and comes after every stored entry in both orders. */
  ghost predicate SortsLast(t: Tables, e: Entry) {
    forall x :: x in t.All() ==> x.id != e.id && ServiceLe(x, e) && DatabaseLe(x, e)
  }

  lemma SnocSorted(xs: seq<Entry>, e: Entry)
    requires Sorted(ServiceLe, xs) && forall x :: x in xs ==> ServiceLe(x, e)
    ensures Sorted(ServiceLe, xs + [e])
  {
    hide ServiceLe;
    var ys := xs + [e];
    forall i, j | 0 <= i < j < |ys| ensures ServiceLe(ys[i], ys[j]) {
      if j == |xs| {
        assert xs[i] in xs;
      }
    }
  }

  /** The ordered entries after an append are those before and the new one, in some order. */
  lemma AppendPermutes(k: Crypto, t: Tables, id: nat, c: Content)
    requires IdsIdentify(t.All()) && forall x :: x in t.All() ==> x.id != id
    ensures var u, e := t.Log(k, id, c), k.Link(id, c, t.LatestHash());
            && u.All() == t.All() + [e]
            && multiset(u.Entries()) == multiset(t.Entries() + [e])
            && IdsIdentify(t.Entries() + [e])
  {
    hide ServiceLe, Latest, Crypto.Link, Sort;
    var u, e := t.Log(k, id, c), k.Link(id, c, t.LatestHash());
    assert u.All() == t.All() + [e];
    EntriesAreAll(t);
    EntriesAreAll(u);
    LinkKeepsId(k, id, c, t.LatestHash());
    FreshIdIdentifies(t.Entries(), e);
  }

  lemma FreshIdIdentifies(xs: seq<Entry>, e: Entry)
    requires IdsIdentify(xs) && forall x :: x in xs ==> x.id != e.id
    ensures IdsIdentify(xs + [e])
  {
    assert forall x :: x in xs + [e] <==> x in xs || x == e;
  }

  lemma LinkKeepsId(k: Crypto, id: nat, c: Content, previousHash: string)
    ensures var e := k.Link(id, c, previousHash); e.id == id && e.content == c && e.previousHash == previousHash
  {
  }

  /** Appending an entry that sorts last extends the chain by it. */
  lemma AppendExtends(k: Crypto, t: Tables, id: nat, c: Content)
    requires t.WellFormed() && SortsLast(t, k.Link(id, c, t.LatestHash()))
    ensures var u, e := t.Log(k, id, c), k.Link(id, c, t.LatestHash());
            u.WellFormed() && u.Entries() == t.Entries() + [e]
  {
    hide Latest, Crypto.Link, ServiceLe, DatabaseLe, Sort;
    var u, e := t.Log(k, id, c), k.Link(id, c, t.LatestHash());
    LinkKeepsId(k, id, c, t.LatestHash());
    AppendPermutes(k, t, id, c);
    EntriesAreAll(t);
    EntriesAreAll(u);
    SnocSorted(t.Entries(), e);
    WellFormedSnoc(t, e);
    IdsDistinguish(t.Entries() + [e]);
    SortedUnique(ServiceLe, t.Entries() + [e], u.Entries());
  }

  lemma WellFormedSnoc(t: Tables, e: Entry)
    requires t.WellFormed() && SortsLast(t, e)
    ensures IdsIdentify(t.All() + [e]) && OrdersAgree(t.All() + [e])
  {
  }

  /** Linking to the latest hash is linking to the end of the ordered entries. */
  lemma TipIsLatest(t: Tables)
    requires t.WellFormed()
    ensures Tip(t.Entries(), "") == t.LatestHash()
  {
    LatestIsLast(t.archives, t.logs);
  }

  lemma ExtendedIsChain(k: Crypto, t: Tables, id: nat, c: Content)
    requires t.WellFormed()
    ensures Chain(k, t.Entries() + [k.Link(id, c, t.LatestHash())], "") <==> Chain(k, t.Entries(), "")
  {
    hide Latest;
    TipIsLatest(t);
    ChainSplit(k, t.Entries(), [k.Link(id, c, t.LatestHash())], "");
  }

  datatype Event = LogAction(id: nat, content: Content) | ArchiveOld(cutoff: int)

  function Apply(k: Crypto, t: Tables, e: Event): (r: Tables) {
    match e
    case LogAction(id, c) => t.Log(k, id, c)
    case ArchiveOld(cutoff) => t.Archive(cutoff)
  }

  function Run(k: Crypto, events: seq<Event>): (t: Tables) {
    if events == [] then Tables([], []) else Apply(k, Run(k, events[..|events| - 1]), events[|events| - 1])
  }

  /** Whenever an action is logged, its entry sorts after all earlier ones. */
  ghost predicate InOrder(k: Crypto, events: seq<Event>) {
    forall i :: 0 <= i < |events| && events[i].LogAction? ==>
      var t := Run(k, events[..i]);
      SortsLast(t, k.Link(events[i].id, events[i].content, t.LatestHash()))
  }

  /** Any log built by logAction from entries that sort after all earlier ones, with archiving at any
      points in between, verifies. */
  lemma {:induction false} LoggedChainVerifies(k: Crypto, events: seq<Event>)
    requires InOrder(k, events)
    ensures Run(k, events).WellFormed() && Chain(k, Run(k, events).Entries(), "") && Run(k, events).Verifies(k)
  {
    hide Chain, Failures, SortsLast, Tables.Log, Tables.Archive, Tables.Entries, Tables.LatestHash;
    if events == [] {
      EmptyVerifies(k);
    } else {
      var init, last := events[..|events| - 1], events[|events| - 1];
      forall i | 0 <= i < |init| && init[i].LogAction?
        ensures var t := Run(k, init[..i]); SortsLast(t, k.Link(init[i].id, init[i].content, t.LatestHash()))
      {
        assert init[..i] == events[..i] && init[i] == events[i];
      }
      LoggedChainVerifies(k, init);
      var t := Run(k, init);
      if last.LogAction? {
        AppendExtends(k, t, last.id, last.content);
        ExtendedIsChain(k, t, last.id, last.content);
      } else {
        ArchivingChangesNothing(k, t, last.cutoff);
        VerifiesIffChain(k, t.Entries(), "");
      }
    }
    VerifiesIffChain(k, Run(k, events).Entries(), "");
  }

  lemma EmptyVerifies(k: Crypto)
    ensures var t := Tables([], []); t.WellFormed() && Chain(k, t.Entries(), "")
  {
  }

  // ---------------------------------------------------------------------------------------
  // What order the chain fixes

  ghost predicate TellingHashes(xs: seq<Entry>) {
    && (forall i, j :: 0 <= i < j < |xs| ==> xs[i].hash != xs[j].hash)
    && (forall i :: 0 <= i < |xs| ==> xs[i].hash != "")
  }

  /** With distinct, non-empty hashes a chain accepts its entries in one order only. */
  lemma {:induction false} ChainFixesPrefix(k: Crypto, xs: seq<Entry>, ys: seq<Entry>, n: nat)
    requires Chain(k, xs, "") && Chain(k, ys, "") && multiset(xs) == multiset(ys) && TellingHashes(xs)
    requires n <= |xs| == |ys|
    ensures xs[..n] == ys[..n]
  {
    hide Chain;
    if n > 0 {
      var i := n - 1;
      ChainFixesPrefix(k, xs, ys, i);
      ChainAt(k, ys, i);
      SameElements(xs, ys, ys[i]);
      var j :| 0 <= j < |xs| && xs[j] == ys[i];
      ChainAt(k, xs, j);
      assert HashBefore(xs, j) == HashBefore(ys, i) == HashBefore(xs, i);
      HashBeforeIsOwn(xs, i, j);
      assert xs[..n] == xs[..i] + [xs[i]] && ys[..n] == ys[..i] + [ys[i]];
    }
  }

  lemma HashBeforeIsOwn(xs: seq<Entry>, i: nat, j: nat)
    requires TellingHashes(xs) && i < |xs| && j < |xs| && HashBefore(xs, i) == HashBefore(xs, j)
    ensures i == j
  {
    if i > 0 {
      assert HashBefore(xs, i) == xs[i - 1].hash;
    }
    if j > 0 {
      assert HashBefore(xs, j) == xs[j - 1].hash;
    }
  }

  lemma ChainFixesOrder(k: Crypto, xs: seq<Entry>, ys: seq<Entry>)
    requires Chain(k, xs, "") && Chain(k, ys, "") && multiset(xs) == multiset(ys) && TellingHashes(xs)
    ensures xs == ys
  {
    assert |multiset(xs)| == |xs| && |multiset(ys)| == |ys|;
    ChainFixesPrefix(k, xs, ys, |xs|);
    assert xs[..|xs|] == xs && ys[..|ys|] == ys;
  }

  /** Appending to a log that verifies keeps it verifying exactly when the new entry compares as last,
      unless hashes collide. */
  lemma AppendVerifiesIff(k: Crypto, t: Tables, id: nat, c: Content)
    requires t.WellFormed() && t.Verifies(k) && forall x :: x in t.All() ==> x.id != id
    requires TellingHashes(t.Entries() + [k.Link(id, c, t.LatestHash())])
    ensures t.Log(k, id, c).Verifies(k) <==>
              forall x :: x in t.All() ==> ServiceLe(x, k.Link(id, c, t.LatestHash()))
  {
    hide Latest, Crypto.Link, ServiceLe, DatabaseLe, Chain, Failures, Sort;
    var u, e := t.Log(k, id, c), k.Link(id, c, t.LatestHash());
    var extended := t.Entries() + [e];
    AppendPermutes(k, t, id, c);
    EntriesAreAll(t);
    EntriesAreAll(u);
    VerifiesIffChain(k, t.Entries(), "");
    VerifiesIffChain(k, u.Entries(), "");
    ExtendedIsChain(k, t, id, c);
    if u.Verifies(k) {
      ChainFixesOrder(k, extended, u.Entries());
      forall x | x in t.All() ensures ServiceLe(x, e) {
        assert x in t.Entries();
        var i :| 0 <= i < |t.Entries()| && t.Entries()[i] == x;
        assert u.Entries()[i] == x && u.Entries()[|t.Entries()|] == e;
      }
    }
    if forall x :: x in t.All() ==> ServiceLe(x, e) {
      SnocSorted(t.Entries(), e);
      IdsDistinguish(extended);
      SortedUnique(ServiceLe, extended, u.Entries());
    }
  }

  // ---------------------------------------------------------------------------------------
  // Migration

  /** The back-fill loop over the rows in database order. */
  function Backfill(k: Crypto, rows: seq<Entry>, previousHash: string): (r: seq<Entry>) {
    if rows == [] then []
    else
      var e := k.Link(rows[0].id, rows[0].content, previousHash);
      [e] + Backfill(k, rows[1..], e.hash)
  }

  lemma {:induction false} BackfillKeepsRows(k: Crypto, rows: seq<Entry>, previousHash: string)
    ensures var r := Backfill(k, rows, previousHash);
            && |r| == |rows|
            && forall i :: 0 <= i < |rows| ==> r[i].id == rows[i].id && r[i].content == rows[i].content
  {
    if rows != [] {
      BackfillKeepsRows(k, rows[1..], k.Link(rows[0].id, rows[0].content, previousHash).hash);
    }
  }

  lemma BackfillStep(k: Crypto, rows: seq<Entry>, i: nat, previousHash: string)
    requires i < |rows|
    ensures var e := k.Link(rows[i].id, rows[i].content, previousHash);
            Backfill(k, rows[i..], previousHash) == [e] + Backfill(k, rows[i + 1..], e.hash)
  {
    assert rows[i..][0] == rows[i] && rows[i..][1..] == rows[i + 1..];
  }

  /** The audit_logs table after the migration. */
  function Migrated(k: Crypto, rows: seq<Entry>): (r: seq<Entry>) {
    Backfill(k, Sort(DatabaseLe, rows), "")
  }

  lemma {:induction false} BackfillIsChain(k: Crypto, rows: seq<Entry>, previousHash: string)
    ensures Chain(k, Backfill(k, rows, previousHash), previousHash)
  {
    if rows != [] {
      BackfillIsChain(k, rows[1..], k.Link(rows[0].id, rows[0].content, previousHash).hash);
    }
  }

  /** Every id occurs once, as the primary key demands. */
  ghost predicate OnceEach(rows: seq<Entry>) {
    IdsIdentify(rows) && NoRepeats(rows)
  }

  lemma DatabaseSorted(rows: seq<Entry>)
    requires OnceEach(rows)
    ensures var sorted := Sort(DatabaseLe, rows);
            && Sorted(DatabaseLe, sorted) && OnceEach(sorted) && |sorted| == |rows|
            && forall e :: e in sorted <==> e in rows
  {
    hide DatabaseLe, ServiceLe;
    var sorted := Sort(DatabaseLe, rows);
    OrdersAreTotal();
    SortSorted(DatabaseLe, rows);
    SortKeepsElements(DatabaseLe, rows);
    forall e ensures e in sorted <==> e in rows {
      SameElements(sorted, rows, e);
    }
    PermutationNoRepeats(rows, sorted);
  }

  /** Back-filling keeps ids, so it keeps them unique. */
  lemma MigratedIds(k: Crypto, rows: seq<Entry>)
    requires OnceEach(rows)
    ensures OnceEach(Migrated(k, rows)) && |Migrated(k, rows)| == |rows|
  {
    hide Backfill, Sort;
    var sorted, migrated := Sort(DatabaseLe, rows), Migrated(k, rows);
    DatabaseSorted(rows);
    BackfillKeepsRows(k, sorted, "");
    forall i, j | 0 <= i < j < |migrated| ensures migrated[i].id != migrated[j].id {
      assert sorted[i] in sorted && sorted[j] in sorted;
      assert sorted[i] != sorted[j];
    }
  }

  lemma ServiceOrderOfMigrated(k: Crypto, rows: seq<Entry>, i: nat, j: nat)
    requires |Sort(DatabaseLe, rows)| == |rows| && i < |rows| && j < |rows|
    ensures |Migrated(k, rows)| == |rows|
    ensures ServiceLe(Migrated(k, rows)[i], Migrated(k, rows)[j])
            <==> ServiceLe(Sort(DatabaseLe, rows)[i], Sort(DatabaseLe, rows)[j])
  {
    hide Backfill, Sort;
    BackfillKeepsRows(k, Sort(DatabaseLe, rows), "");
  }

  /** The migrated rows come in database order; they come in service order exactly when the two orders
      agree on the rows. */
  lemma MigratedSorted(k: Crypto, rows: seq<Entry>)
    requires OnceEach(rows)
    ensures Sorted(ServiceLe, Migrated(k, rows)) <==> OrdersAgree(rows)
  {
    hide Migrated, Sort, ServiceLe, DatabaseLe;
    var sorted, migrated := Sort(DatabaseLe, rows), Migrated(k, rows);
    DatabaseSorted(rows);
    MigratedIds(k, rows);
    if OrdersAgree(rows) {
      forall i, j | 0 <= i < j < |migrated| ensures ServiceLe(migrated[i], migrated[j]) {
        assert sorted[i] in sorted && sorted[j] in sorted;
        ServiceOrderOfMigrated(k, rows, i, j);
      }
    }
    if Sorted(ServiceLe, migrated) {
      forall a, b | a in rows && b in rows && DatabaseLe(a, b) ensures ServiceLe(a, b) {
        assert a in sorted && b in sorted;
        var i :| 0 <= i < |sorted| && sorted[i] == a;
        var j :| 0 <= j < |sorted| && sorted[j] == b;
        ServiceOrderOfMigrated(k, rows, i, j);
        OrdersAreTotal();
        if j < i {
          IdsDistinguish(rows);
          assert DatabaseLe(b, a);
        } else if i == j {
          assert ServiceLe(a, a);
        }
      }
    }
  }

  /** The back-filled rows form a chain, and the service reads them all. */
  lemma MigratedChain(k: Crypto, rows: seq<Entry>)
    ensures Chain(k, Migrated(k, rows), "")
    ensures var t := Tables([], Migrated(k, rows));
            && multiset(t.Entries()) == multiset(Migrated(k, rows)) && Sorted(ServiceLe, t.Entries())
            && (t.Verifies(k) <==> Chain(k, t.Entries(), ""))
  {
    hide Chain, Failures, Sort, ServiceLe, DatabaseLe;
    var t := Tables([], Migrated(k, rows));
    assert t.All() == Migrated(k, rows);
    EntriesAreAll(t);
    BackfillIsChain(k, Sort(DatabaseLe, rows), "");
    VerifiesIffChain(k, t.Entries(), "");
  }

  /** The back-fill produces a chain that the service accepts when the database order of the rows is also
      the service's order. */
  lemma BackfillAccepted(k: Crypto, rows: seq<Entry>)
    requires OnceEach(rows) && OrdersAgree(rows)
    ensures Tables([], Migrated(k, rows)).Verifies(k)
  {
    hide ServiceLe, Chain, Migrated, Tables.Entries, Tables.Verifies, OrdersAgree;
    MigratedChain(k, rows);
    MigratedSorted(k, rows);
    MigratedIds(k, rows);
    IdsDistinguish(Migrated(k, rows));
    SortedUnique(ServiceLe, Migrated(k, rows), Tables([], Migrated(k, rows)).Entries());
  }

  /** Agreement of the orders is also necessary, unless hashes collide: the service accepts the
      back-filled table exactly when the two orders agree on the rows. */
  lemma BackfillAcceptedIff(k: Crypto, rows: seq<Entry>)
    requires OnceEach(rows) && TellingHashes(Migrated(k, rows))
    ensures Tables([], Migrated(k, rows)).Verifies(k) <==> OrdersAgree(rows)
  {
    hide ServiceLe, Chain, Migrated, Tables.Entries, Tables.Verifies, OrdersAgree, TellingHashes;
    MigratedChain(k, rows);
    MigratedSorted(k, rows);
    if Tables([], Migrated(k, rows)).Verifies(k) {
      ChainFixesOrder(k, Migrated(k, rows), Tables([], Migrated(k, rows)).Entries());
    }
    if OrdersAgree(rows) {
      BackfillAccepted(k, rows);
    }
  }

  /** Two legacy rows within one millisecond on which the orders disagree. */
  lemma OrdersCanDisagree()
    ensures var a := Entry(1, Content("a", "u", None, None, 500), "", "", "");
            var b := Entry(2, Content("b", "u", None, None, 400), "", "", "");
            OnceEach([a, b]) && !OrdersAgree([a, b])
  {
    var a := Entry(1, Content("a", "u", None, None, 500), "", "", "");
    var b := Entry(2, Content("b", "u", None, None, 400), "", "", "");
    assert DatabaseLe(b, a) && !ServiceLe(b, a);
    assert a in [a, b] && b in [a, b];
  }

  // ---------------------------------------------------------------------------------------
  // Deletion

  /** Deleting one row from either table of a log that verifies, other than its last entry, is noticed
      exactly when the entry's hash differs from the hash before it. */
  lemma RowDeletionDetected(k: Crypto, t: Tables, u: Tables, i: nat)
    requires IdsIdentify(t.All()) && t.Verifies(k) && i < |t.Entries()| - 1
    requires multiset(u.All()) == multiset(t.All()) - multiset{t.Entries()[i]}
    ensures u.Verifies(k) <==> t.Entries()[i].hash == HashBefore(t.Entries(), i)
  {
    hide ServiceLe, DatabaseLe, Failures, Chain, Sort, HashBefore;
    var xs := t.Entries();
    EntriesAreAll(t);
    EntriesAreAll(u);
    VerifiesIffChain(k, xs, "");
    DroppedElements(xs, i);
    IdsDistinguish(xs);
    RemainsSorted(xs, i);
    SortedUnique(ServiceLe, xs[..i] + xs[i + 1..], u.Entries());
    DeletionDetected(k, xs, i);
  }

  lemma RemainsSorted(xs: seq<Entry>, i: nat)
    requires i < |xs| && Sorted(ServiceLe, xs) && Distinguishes(ServiceLe, xs)
    ensures Sorted(ServiceLe, xs[..i] + xs[i + 1..]) && Distinguishes(ServiceLe, xs[..i] + xs[i + 1..])
  {
    hide ServiceLe;
    var ys := xs[..i] + xs[i + 1..];
    forall a, b | 0 <= a < b < |ys| ensures ServiceLe(ys[a], ys[b]) {
      assert ys[a] == xs[if a < i then a else a + 1] && ys[b] == xs[if b < i then b else b + 1];
    }
    forall y | y in ys ensures y in xs {
      var a :| 0 <= a < |ys| && ys[a] == y;
      assert y == xs[if a < i then a else a + 1];
    }
  }

  // ---------------------------------------------------------------------------------------
  // The service

  class AuditService {
    const crypto: Crypto
    var archives: seq<Entry>
    var logs: seq<Entry>

    function View(): (t: Tables)
      reads this
    {
      Tables(archives, logs)
    }

    constructor (crypto: Crypto)
      ensures this.crypto == crypto && View() == Tables([], [])
    {
      this.crypto, archives, logs := crypto, [], [];
    }

    /** logAction: link the new entry to the latest one. */
    method Append(id: nat, content: Content) returns (log: Entry)
      modifies this`logs
      ensures View() == old(View()).Log(crypto, id, content)
      ensures log == logs[|logs| - 1] && log.id == id && log.content == content
      ensures old(View().WellFormed() && View().Verifies(crypto)) && SortsLast(old(View()), log) ==>
                View().WellFormed() && View().Verifies(crypto)
    {
      hide Latest, Sort, Failures, Chain, ServiceLe, DatabaseLe;
      var previous := Latest(archives, logs);
      var previousHash := if previous.None? then "" else previous.value.hash;
      ghost var t := View();
      log := crypto.Link(id, content, previousHash);
      if t.WellFormed() && t.Verifies(crypto) && SortsLast(t, log) {
        VerifiesIffChain(crypto, t.Entries(), "");
        AppendExtends(crypto, t, id, content);
        ExtendedIsChain(crypto, t, id, content);
        VerifiesIffChain(crypto, t.Log(crypto, id, content).Entries(), "");
      }
      logs := logs + [log];
    }

    /** verifyAuditChain: walk the ordered entries carrying the previous hash. */
    method VerifyAuditChain() returns (valid: bool, checkedEntries: nat, failures: seq<Failure>)
      ensures failures == Failures(crypto, View().Entries(), "")
      ensures valid <==> Chain(crypto, View().Entries(), "")
      ensures checkedEntries == |archives| + |logs|
    {
      hide Sort, ServiceLe, EntryFailures, Chain;
      var entries := View().Entries();
      failures := [];
      var previousHash := "";
      for i := 0 to |entries|
        invariant Failures(crypto, entries, "") == failures + Failures(crypto, entries[i..], previousHash)
      {
        var entry := entries[i];
        assert entries[i..][0] == entry && entries[i..][1..] == entries[i + 1..];
        failures := failures + EntryFailures(crypto, entry, previousHash);
        previousHash := entry.hash;
      }
      valid, checkedEntries := |failures| == 0, |entries|;
      VerifiesIffChain(crypto, entries, "");
      SortKeepsElements(ServiceLe, archives + logs);
    }

    /** archiveOldLogs: move the old rows to the archive table. */
    method ArchiveOldLogs(cutoff: int) returns (moved: nat)
      modifies this`archives, this`logs
      ensures View() == old(View()).Archive(cutoff) && moved == |archives| - |old(archives)|
      ensures old(View().Keyed()) ==>
                && View().Keyed() && Copies(View().Entries()) == old(Copies(View().Entries()))
                && Failures(crypto, View().Entries(), "") == old(Failures(crypto, View().Entries(), ""))
      ensures old(View().WellFormed()) ==> View().WellFormed() && View().LatestRead() == old(View().LatestRead())
    {
      hide Latest, Sort, ServiceLe, DatabaseLe, Older, Newer, Read, Copies, Failures;
      if View().Keyed() {
        ArchivingChangesNothing(crypto, View(), cutoff);
      }
      var copies: seq<Entry>, kept: seq<Entry> := [], [];
      assert logs[0..] == logs;
      for i := 0 to |logs|
        invariant logs == old(logs) && archives == old(archives)
        invariant Copies(Older(logs, cutoff)) == copies + Copies(Older(logs[i..], cutoff))
        invariant Newer(logs, cutoff) == kept + Newer(logs[i..], cutoff)
      {
        SplitStep(logs, i, cutoff);
        if logs[i].content.timestamp < cutoff {
          CopiesConcat([logs[i]], Older(logs[i + 1..], cutoff));
          CopiesAt([logs[i]]);
          copies := copies + [Read(logs[i])];
        } else {
          assert [] + Older(logs[i + 1..], cutoff) == Older(logs[i + 1..], cutoff);
          kept := kept + [logs[i]];
        }
      }
      assert logs[|logs|..] == [];
      SplitNothing(cutoff);
      CopiesAt([]);
      archives, logs := archives + copies, kept;
      moved := |copies|;
    }
  }

  /** The migration's up(): read the rows in database order and rewrite each with its link. */
  method MigrateUp(k: Crypto, rows: seq<Entry>) returns (updated: seq<Entry>)
    ensures updated == Migrated(k, rows)
    ensures OnceEach(rows) && OrdersAgree(rows) ==> Tables([], updated).Verifies(k)
  {
    hide Sort, Backfill, OrdersAgree, OnceEach, Tables.Verifies, Crypto.Link;
    if OnceEach(rows) && OrdersAgree(rows) {
      BackfillAccepted(k, rows);
    }
    var sorted := Sort(DatabaseLe, rows);
    updated := [];
    var previousHash := "";
    assert sorted[0..] == sorted;
    for i := 0 to |sorted|
      invariant Backfill(k, sorted, "") == updated + Backfill(k, sorted[i..], previousHash)
    {
      BackfillStep(k, sorted, i, previousHash);
      var row := k.Link(sorted[i].id, sorted[i].content, previousHash);
      updated := updated + [row];
      previousHash := row.hash;
    }
    assert sorted[|sorted|..] == [];
    assert Backfill(k, [], previousHash) == [] by {
      BackfillKeepsRows(k, [], previousHash);
    }
  }
}
