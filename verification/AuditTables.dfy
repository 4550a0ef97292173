/** The log and archive tables behind the audit service, and what archiving does to what the service
    reads from them (Backend/src/audit/audit.service.ts). */
module AuditTables {
  import opened Wrappers
  import opened Sorting
  import opened AuditChain

  /** A row as the service reads it, and as it writes it to the archive: a JavaScript Date has no
      microseconds. */
  function Read(e: Entry): (r: Entry) {
    e.(content := e.content.(timestamp := Ms(e.content.timestamp) * 1000))
  }

  function Copies(xs: seq<Entry>): (r: seq<Entry>) {
    if xs == [] then [] else [Read(xs[0])] + Copies(xs[1..])
  }

  predicate WholeMs(e: Entry) {
    e.content.timestamp % 1000 == 0
  }

  datatype Tables = Tables(archives: seq<Entry>, logs: seq<Entry>) {

    function All(): (r: seq<Entry>) {
      archives + logs
    }

    function Entries(): (r: seq<Entry>) {
      Ordered(archives, logs)
    }

    function LatestHash(): (h: string) {
      var latest := Latest(archives, logs);
      if latest.None? then "" else latest.value.hash
    }

    /** The latest entry as the service reads it. */
    function LatestRead(): (r: Option<Entry>) {
      var latest := Latest(archives, logs);
      if latest.None? then None else Some(Read(latest.value))
    }

    /** verifyAuditChain().valid */
    predicate Verifies(k: Crypto) {
      Failures(k, Entries(), "") == []
    }

    /** Ids are primary keys, and archived rows were written by the service. */
    ghost predicate Keyed() {
      IdsIdentify(All()) && forall e :: e in archives ==> WholeMs(e)
    }

    ghost predicate WellFormed() {
      Keyed() && OrdersAgree(All())
    }

    /** Archived rows are at least a millisecond older than the rows still in the log. */
    ghost predicate Split() {
      forall a, e :: a in archives && e in logs ==> Ms(a.content.timestamp) < Ms(e.content.timestamp)
    }

    /** logAction */
    function Log(k: Crypto, id: nat, c: Content): (t: Tables) {
      this.(logs := logs + [k.Link(id, c, LatestHash())])
    }

    /** archiveOldLogs */
    function Archive(cutoff: int): (t: Tables) {
      Tables(archives + Copies(Older(logs, cutoff)), Newer(logs, cutoff))
    }
  }

  function Older(xs: seq<Entry>, cutoff: int): (r: seq<Entry>) {
    if xs == [] then []
    else (if xs[0].content.timestamp < cutoff then [xs[0]] else []) + Older(xs[1..], cutoff)
  }

  function Newer(xs: seq<Entry>, cutoff: int): (r: seq<Entry>) {
    if xs == [] then []
    else (if xs[0].content.timestamp < cutoff then [] else [xs[0]]) + Newer(xs[1..], cutoff)
  }

  // ---------------------------------------------------------------------------------------
  // Rows as they are read

  /** Reading a row keeps its id, its place in the service order and its links. */
  lemma ReadKeeps(a: Entry, b: Entry)
    ensures ServiceLe(Read(a), Read(b)) <==> ServiceLe(a, b)
    ensures WholeMs(Read(a)) && Read(Read(a)) == Read(a) && (WholeMs(a) ==> Read(a) == a)
  {
    assert Ms(Ms(a.content.timestamp) * 1000) == Ms(a.content.timestamp);
    assert Ms(Ms(b.content.timestamp) * 1000) == Ms(b.content.timestamp);
  }

  lemma {:induction false} CopiesAt(xs: seq<Entry>)
    ensures |Copies(xs)| == |xs| && forall i :: 0 <= i < |xs| ==> Copies(xs)[i] == Read(xs[i])
  {
    hide Read;
    if xs != [] {
      CopiesAt(xs[1..]);
      forall i | 0 <= i < |xs| ensures Copies(xs)[i] == Read(xs[i]) {
        if i > 0 {
          assert Copies(xs)[i] == Copies(xs[1..])[i - 1];
        }
      }
    }
  }

  lemma CopiesConcat(xs: seq<Entry>, ys: seq<Entry>)
    ensures Copies(xs + ys) == Copies(xs) + Copies(ys)
  {
    hide Read, Copies;
    CopiesAt(xs);
    CopiesAt(ys);
    CopiesAt(xs + ys);
  }

  lemma CopiesTwice(xs: seq<Entry>)
    ensures Copies(Copies(xs)) == Copies(xs)
  {
    hide Read, Copies;
    CopiesAt(xs);
    CopiesAt(Copies(xs));
    forall i | 0 <= i < |xs| ensures Copies(Copies(xs))[i] == Copies(xs)[i] {
      ReadKeeps(xs[i], xs[i]);
    }
  }

  /** Copies of the same rows are the same copies, in whatever order. */
  lemma {:induction false} CopiesElements(xs: seq<Entry>, ys: seq<Entry>)
    requires multiset(xs) == multiset(ys)
    ensures multiset(Copies(xs)) == multiset(Copies(ys))
    decreases |xs|
  {
    hide Read, Copies;
    SameSize(xs, ys);
    if xs == [] {
      assert ys == xs;
    } else {
      var j := IndexOf(xs, ys);
      SameRest(xs, ys, j);
      CopiesElements(xs[..0] + xs[1..], ys[..j] + ys[j + 1..]);
      CopiesDropped(xs, 0);
      CopiesDropped(ys, j);
    }
  }

  lemma SameRest(xs: seq<Entry>, ys: seq<Entry>, j: nat)
    requires multiset(xs) == multiset(ys) && xs != [] && j < |ys| && ys[j] == xs[0]
    ensures multiset(xs[..0] + xs[1..]) == multiset(ys[..j] + ys[j + 1..])
  {
    DroppedElements(xs, 0);
    DroppedElements(ys, j);
  }

  lemma IndexOf(xs: seq<Entry>, ys: seq<Entry>) returns (j: nat)
    requires xs != [] && multiset(xs) == multiset(ys)
    ensures j < |ys| && ys[j] == xs[0]
  {
    SameElements(xs, ys, xs[0]);
    j :| 0 <= j < |ys| && ys[j] == xs[0];
  }

  lemma DroppedElements(xs: seq<Entry>, i: nat)
    requires i < |xs|
    ensures multiset(xs[..i] + xs[i + 1..]) == multiset(xs) - multiset{xs[i]}
  {
    assert xs == xs[..i] + [xs[i]] + xs[i + 1..];
  }

  lemma CopiesDropped(xs: seq<Entry>, i: nat)
    requires i < |xs|
    ensures multiset(Copies(xs)) == multiset(Copies(xs[..i] + xs[i + 1..])) + multiset{Read(xs[i])}
  {
    hide Read, Copies;
    var before, after := xs[..i], xs[i + 1..];
    assert xs == before + ([xs[i]] + after);
    CopiesConcat(before, [xs[i]] + after);
    CopiesConcat([xs[i]], after);
    CopiesConcat(before, after);
    CopiesAt([xs[i]]);
  }

  /** Verification does not look at microseconds. */
  lemma {:induction false} FailuresOfCopies(k: Crypto, xs: seq<Entry>, previousHash: string)
    ensures Failures(k, Copies(xs), previousHash) == Failures(k, xs, previousHash)
    decreases |xs|
  {
    if xs != [] {
      ReadKeeps(xs[0], xs[0]);
      assert Ms(Read(xs[0]).content.timestamp) == Ms(xs[0].content.timestamp);
      assert Copies(xs)[1..] == Copies(xs[1..]);
      FailuresOfCopies(k, xs[1..], xs[0].hash);
    }
  }

  lemma InCopies(xs: seq<Entry>, e: Entry)
    ensures e in Copies(xs) <==> exists x :: x in xs && e == Read(x)
  {
    hide Read, Copies;
    CopiesAt(xs);
    if e in Copies(xs) {
      var i :| 0 <= i < |xs| && Copies(xs)[i] == e;
      assert xs[i] in xs;
    }
    if exists x :: x in xs && e == Read(x) {
      var x :| x in xs && e == Read(x);
      var i :| 0 <= i < |xs| && xs[i] == x;
      assert Copies(xs)[i] == e;
    }
  }

  lemma EntriesAreAll(t: Tables)
    ensures multiset(t.Entries()) == multiset(t.All()) && Sorted(ServiceLe, t.Entries())
    ensures forall x :: x in t.Entries() <==> x in t.All()
  {
    hide ServiceLe;
    OrdersAreTotal();
    SortKeepsElements(ServiceLe, t.All());
    SortSorted(ServiceLe, t.All());
    forall x ensures x in t.Entries() <==> x in t.All() {
      SameElements(t.Entries(), t.All(), x);
    }
  }

  /** Tables that hold the same rows up to microseconds are read in the same order. */
  lemma SameReading(t: Tables, u: Tables)
    requires IdsIdentify(t.All()) && multiset(Copies(t.All())) == multiset(Copies(u.All()))
    ensures Copies(t.Entries()) == Copies(u.Entries())
  {
    hide ServiceLe, Copies, Read, Sort;
    EntriesAreAll(t);
    EntriesAreAll(u);
    CopiesElements(t.Entries(), t.All());
    CopiesElements(u.Entries(), u.All());
    CopiesSorted(t.Entries());
    CopiesSorted(u.Entries());
    CopiesIdentify(t.Entries());
    IdsDistinguish(Copies(t.Entries()));
    SortedUnique(ServiceLe, Copies(t.Entries()), Copies(u.Entries()));
  }

  lemma CopiesSorted(xs: seq<Entry>)
    requires Sorted(ServiceLe, xs)
    ensures Sorted(ServiceLe, Copies(xs))
  {
    hide ServiceLe, Read, Copies;
    CopiesAt(xs);
    forall i, j | 0 <= i < j < |xs| ensures ServiceLe(Copies(xs)[i], Copies(xs)[j]) {
      ReadKeeps(xs[i], xs[j]);
    }
  }

  lemma CopiesIdentify(xs: seq<Entry>)
    requires IdsIdentify(xs)
    ensures IdsIdentify(Copies(xs))
  {
    hide Copies;
    forall a, b | a in Copies(xs) && b in Copies(xs) && a.id == b.id ensures a == b {
      InCopies(xs, a);
      InCopies(xs, b);
    }
  }

  // ---------------------------------------------------------------------------------------
  // Archiving

  lemma {:induction false} SplitKeepsElements(xs: seq<Entry>, cutoff: int)
    ensures multiset(Older(xs, cutoff)) + multiset(Newer(xs, cutoff)) == multiset(xs)
  {
    if xs != [] {
      SplitKeepsElements(xs[1..], cutoff);
      assert xs == [xs[0]] + xs[1..];
    }
  }

  lemma {:induction false} InSplit(xs: seq<Entry>, cutoff: int, e: Entry)
    ensures e in Older(xs, cutoff) <==> e in xs && e.content.timestamp < cutoff
    ensures e in Newer(xs, cutoff) <==> e in xs && e.content.timestamp >= cutoff
  {
    if xs != [] {
      InSplit(xs[1..], cutoff, e);
      assert e in xs <==> e == xs[0] || e in xs[1..];
    }
  }

  lemma SplitStep(xs: seq<Entry>, i: nat, cutoff: int)
    requires i < |xs|
    ensures Older(xs[i..], cutoff)
            == (if xs[i].content.timestamp < cutoff then [xs[i]] else []) + Older(xs[i + 1..], cutoff)
    ensures Newer(xs[i..], cutoff)
            == (if xs[i].content.timestamp < cutoff then [] else [xs[i]]) + Newer(xs[i + 1..], cutoff)
  {
    assert xs[i..][0] == xs[i] && xs[i..][1..] == xs[i + 1..];
  }

  lemma SplitNothing(cutoff: int)
    ensures Older([], cutoff) == [] && Newer([], cutoff) == []
  {
  }

  lemma ArchiveReadsAlike(t: Tables, cutoff: int)
    ensures multiset(Copies(t.Archive(cutoff).All())) == multiset(Copies(t.All()))
  {
    hide Read, Copies, Older, Newer;
    var older, newer := Older(t.logs, cutoff), Newer(t.logs, cutoff);
    SplitKeepsElements(t.logs, cutoff);
    assert multiset(t.archives + older + newer) == multiset(t.All());
    CopiesElements(t.archives + older + newer, t.All());
    CopiesConcat(t.archives + older, newer);
    CopiesConcat(t.archives, older);
    CopiesConcat(t.archives + Copies(older), newer);
    CopiesConcat(t.archives, Copies(older));
    CopiesTwice(older);
  }

  /** Where a row of the archived tables comes from: `x` is the row it was before. */
  ghost predicate CameFrom(t: Tables, cutoff: int, e: Entry, x: Entry) {
    || (e in t.archives && x == e)
    || (x in t.logs && x.content.timestamp < cutoff && e == Read(x))
    || (x in t.logs && x.content.timestamp >= cutoff && e == x)
  }

  lemma ArchivedRow(t: Tables, cutoff: int, e: Entry) returns (x: Entry)
    requires e in t.Archive(cutoff).All()
    ensures CameFrom(t, cutoff, e, x) && x in t.All()
  {
    hide Read, Copies, Older, Newer;
    x := e;
    if e in Copies(Older(t.logs, cutoff)) {
      InCopies(Older(t.logs, cutoff), e);
      x :| x in Older(t.logs, cutoff) && e == Read(x);
      InSplit(t.logs, cutoff, x);
    } else {
      InSplit(t.logs, cutoff, e);
    }
  }

  lemma ArchiveKeepsKeyed(t: Tables, cutoff: int)
    requires t.Keyed()
    ensures t.Archive(cutoff).Keyed()
  {
    hide Copies, Older, Newer;
    var u := t.Archive(cutoff);
    forall a, b | a in u.All() && b in u.All() && a.id == b.id ensures a == b {
      var x := ArchivedRow(t, cutoff, a);
      var y := ArchivedRow(t, cutoff, b);
    }
    forall e | e in u.archives ensures WholeMs(e) {
      InCopies(Older(t.logs, cutoff), e);
    }
  }

  lemma ArchiveKeepsAgreement(t: Tables, cutoff: int)
    requires t.WellFormed()
    ensures OrdersAgree(t.Archive(cutoff).All())
  {
    hide Copies, Older, Newer;
    var u := t.Archive(cutoff);
    forall a, b | a in u.All() && b in u.All() && DatabaseLe(a, b) ensures ServiceLe(a, b) {
      var x := ArchivedRow(t, cutoff, a);
      var y := ArchivedRow(t, cutoff, b);
      AgreementMoves(t, cutoff, a, b, x, y);
    }
  }

  lemma AgreementMoves(t: Tables, cutoff: int, a: Entry, b: Entry, x: Entry, y: Entry)
    requires t.WellFormed() && x in t.All() && y in t.All()
    requires CameFrom(t, cutoff, a, x) && CameFrom(t, cutoff, b, y) && DatabaseLe(a, b)
    ensures ServiceLe(a, b)
  {
    assert DatabaseLe(x, y) ==> ServiceLe(x, y);
  }

  /** Archiving everything older than any cutoff leaves what the service reads in order, and so the
      failures that verification reports, exactly as they were, whether or not the database and the
      service order the rows alike. */
  lemma ArchivingChangesNothing(k: Crypto, t: Tables, cutoff: int)
    requires t.Keyed()
    ensures t.Archive(cutoff).Keyed()
    ensures Copies(t.Archive(cutoff).Entries()) == Copies(t.Entries())
    ensures Failures(k, t.Archive(cutoff).Entries(), "") == Failures(k, t.Entries(), "")
    ensures t.WellFormed() ==> t.Archive(cutoff).WellFormed() && t.Archive(cutoff).LatestRead() == t.LatestRead()
  {
    hide ServiceLe, DatabaseLe, Latest, Failures, Copies, Read, Tables.Archive, OrdersAgree;
    var u := t.Archive(cutoff);
    ArchiveKeepsKeyed(t, cutoff);
    ArchiveReadsAlike(t, cutoff);
    SameReading(t, u);
    FailuresOfCopies(k, t.Entries(), "");
    FailuresOfCopies(k, u.Entries(), "");
    if t.WellFormed() {
      ArchiveKeepsAgreement(t, cutoff);
      LatestIsLast(t.archives, t.logs);
      LatestIsLast(u.archives, u.logs);
      CopiesAt(t.Entries());
      CopiesAt(u.Entries());
    }
  }

  // ---------------------------------------------------------------------------------------
  // The latest entry

  /** The code archives up to a whole millisecond, which keeps the tables apart. */
  lemma ArchiveKeepsSplit(t: Tables, cutoff: int)
    requires t.Split() && cutoff % 1000 == 0
    ensures t.Archive(cutoff).Split()
  {
    hide Copies, Older, Newer;
    var u := t.Archive(cutoff);
    forall a, e | a in u.archives && e in u.logs ensures Ms(a.content.timestamp) < Ms(e.content.timestamp) {
      InSplit(t.logs, cutoff, e);
      if a !in t.archives {
        InCopies(Older(t.logs, cutoff), a);
        var x :| x in Older(t.logs, cutoff) && a == Read(x);
        InSplit(t.logs, cutoff, x);
        assert Ms(x.content.timestamp) < cutoff / 1000 <= Ms(e.content.timestamp);
      }
    }
  }

  /** In split tables the latest entry is the newest log row, if there is one. */
  lemma LatestOfSplit(t: Tables)
    requires t.Split()
    ensures Latest(t.archives, t.logs) == if t.logs == [] then Newest(t.archives) else Newest(t.logs)
  {
    hide Newest;
    NewestOfNothing();
    if t.logs != [] {
      NewestIsGreatest(t.logs);
      if t.archives != [] {
        NewestIsGreatest(t.archives);
      }
    }
  }

  lemma NewestOfNothing()
    ensures Newest([]) == None
  {
  }

  lemma NewestUnique(xs: seq<Entry>, m: Entry)
    requires IdsIdentify(xs) && m in xs && forall e :: e in xs ==> DatabaseLe(e, m)
    ensures Newest(xs) == Some(m)
  {
    hide Newest;
    NewestIsGreatest(xs);
  }

  /** While some log row stays, the newest one stays. */
  lemma NewestStays(xs: seq<Entry>, cutoff: int)
    requires IdsIdentify(xs) && Newer(xs, cutoff) != []
    ensures Newest(Newer(xs, cutoff)) == Newest(xs)
  {
    hide Newest, Newer, Older;
    var ys := Newer(xs, cutoff);
    NewestIsGreatest(ys);
    var m := Newest(ys).value;
    InSplit(xs, cutoff, m);
    forall e | e in xs ensures DatabaseLe(e, m) {
      InSplit(xs, cutoff, e);
    }
    NewestUnique(xs, m);
  }

  /** The newest archived copy is the copy of the log row that is last in the service order. */
  lemma NewestCopy(t: Tables) returns (x: Entry)
    requires t.Split() && t.logs != []
    ensures x in t.logs && Newest(t.archives + Copies(t.logs)) == Some(Read(x))
    ensures forall e :: e in t.logs ==> ServiceLe(e, x)
  {
    hide Copies, Newest;
    var ys := t.archives + Copies(t.logs);
    var first := t.logs[0];
    InCopies(t.logs, Read(first));
    NewestIsGreatest(ys);
    var m := Newest(ys).value;
    assert DatabaseLe(Read(first), m);
    assert m !in t.archives;
    InCopies(t.logs, m);
    x :| x in t.logs && m == Read(x);
    forall e | e in t.logs ensures ServiceLe(e, x) {
      InCopies(t.logs, Read(e));
      assert DatabaseLe(Read(e), m);
    }
  }

  /** With the whole-millisecond cutoff of the code, and without assuming that the orders agree,
      archiving leaves the latest entry as it was exactly when a log row stays behind, or there was
      none, or the newest log row in database order is also the last one in the service order. */
  lemma LatestStaysIff(t: Tables, cutoff: int)
    requires t.Keyed() && t.Split() && cutoff % 1000 == 0
    ensures t.Archive(cutoff).LatestRead() == t.LatestRead() <==>
              || t.logs == []
              || Newer(t.logs, cutoff) != []
              || forall e :: e in t.logs ==> ServiceLe(e, Newest(t.logs).value)
  {
    hide Copies, Newest, Older, Newer, Latest, ServiceLe, Read, Tables.Split;
    var u := t.Archive(cutoff);
    ArchiveKeepsSplit(t, cutoff);
    LatestOfSplit(t);
    LatestOfSplit(u);
    LogIdsIdentify(t);
    if t.logs == [] {
      SplitNothing(cutoff);
      CopiesAt([]);
      assert u.archives == t.archives;
    } else if Newer(t.logs, cutoff) != [] {
      NewestStays(t.logs, cutoff);
    } else {
      AllOlder(t.logs, cutoff);
      var x := NewestCopy(t);
      NewestIsGreatest(t.logs);
      LastIsNewest(t.logs, Newest(t.logs).value, x);
    }
  }

  lemma LogIdsIdentify(t: Tables)
    requires t.Keyed()
    ensures IdsIdentify(t.logs)
  {
  }

  lemma {:induction false} AllOlder(xs: seq<Entry>, cutoff: int)
    requires Newer(xs, cutoff) == []
    ensures Older(xs, cutoff) == xs
  {
    if xs != [] {
      AllOlder(xs[1..], cutoff);
    }
  }

  lemma LastIsNewest(xs: seq<Entry>, n: Entry, x: Entry)
    requires IdsIdentify(xs) && n in xs && x in xs && forall e :: e in xs ==> ServiceLe(e, x)
    ensures Read(n) == Read(x) <==> forall e :: e in xs ==> ServiceLe(e, n)
    ensures Read(Read(x)) == Read(x)
  {
    ReadKeeps(x, x);
    assert Read(n) == Read(x) ==> n == x;
  }

  lemma NewestOfTwo(a: Entry, b: Entry)
    ensures Newest([a, b]) == Some(if DatabaseLe(b, a) then a else b)
  {
    assert [a, b][1..] == [b] && [b][1..] == [];
    assert Newest([b]) == Some(b);
  }

  /** It does change otherwise: of two legacy rows within a millisecond, the latest entry before
      archiving both is one and after it the other. */
  lemma ArchivingMovesLatest()
    ensures var a := Entry(1, Content("a", "u", None, None, 500), "", "", "");
            var b := Entry(2, Content("b", "u", None, None, 400), "", "", "");
            var t := Tables([], [a, b]);
            && t.Keyed() && t.Split() && t.LatestRead() == Some(Read(a))
            && t.Archive(1000).LatestRead() == Some(Read(b)) && Read(a) != Read(b)
  {
    var a := Entry(1, Content("a", "u", None, None, 500), "", "", "");
    var b := Entry(2, Content("b", "u", None, None, 400), "", "", "");
    var t := Tables([], [a, b]);
    assert t.All() == [a, b];
    NewestOfNothing();
    NewestOfTwo(a, b);
    ArchiveOfTwo(a, b, 1000);
    NewestOfTwo(Read(a), Read(b));
    hide Newest, Tables.Archive;
  }

  lemma ArchiveOfTwo(a: Entry, b: Entry, cutoff: int)
    requires a.content.timestamp < cutoff && b.content.timestamp < cutoff
    ensures Tables([], [a, b]).Archive(cutoff) == Tables([Read(a), Read(b)], [])
  {
    hide Read, Older, Newer, Copies;
    var xs := [a, b];
    assert forall e :: e in xs ==> e == a || e == b;
    if Newer(xs, cutoff) != [] {
      InSplit(xs, cutoff, Newer(xs, cutoff)[0]);
      assert false;
    }
    AllOlder(xs, cutoff);
    CopiesAt(xs);
  }
}
