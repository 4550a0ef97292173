/** The audit log's hash chain: what verification accepts and what it detects
    (Backend/src/audit/audit.service.ts). */
module AuditChain {
  import opened Wrappers
  import opened Sorting

  /** The logged facts. Timestamps are stored in microseconds. */
  datatype Content = Content(
    actionType: string,
    actorId: string,
    entityId: Option<string>,
    metadata: Option<string>,
    timestamp: int)

  datatype Entry = Entry(id: nat, content: Content, previousHash: string, hash: string, signature: string)

  /** The service compares and formats timestamps in milliseconds. */
  function Ms(timestamp: int): (r: int) {
    timestamp / 1000
  }

  /** SHA-256 over previous hash, action, actor and formatted timestamp, and the keyed signature over
      all fields. Nothing is assumed about either. */
  datatype Crypto = Crypto(
    digest: (string, string, string, int) -> string,
    sign: (string, string, Option<string>, Option<string>, int, string, string) -> string)
  {
    /** computeHash */
    function HashOf(c: Content, previousHash: string): (h: string) {
      digest(previousHash, c.actionType, c.actorId, Ms(c.timestamp))
    }

    /** computeSignature */
    function SignatureOf(c: Content, previousHash: string, hash: string): (s: string) {
      sign(c.actionType, c.actorId, c.entityId, c.metadata, Ms(c.timestamp), previousHash, hash)
    }

    /** An entry linked to the given previous hash. */
    function Link(id: nat, c: Content, previousHash: string): (e: Entry) {
      var hash := HashOf(c, previousHash);
      Entry(id, c, previousHash, hash, SignatureOf(c, previousHash, hash))
    }
  }

  // ---------------------------------------------------------------------------------------
  // Verification

  datatype Reason = BrokenLink | WrongHash | WrongSignature

  datatype Failure = Failure(id: nat, reason: Reason)

  /** The failures the verification loop reports for one entry. */
  function EntryFailures(k: Crypto, e: Entry, previousHash: string): (r: seq<Failure>) {
    var expectedHash := k.HashOf(e.content, previousHash);
    (if e.previousHash != previousHash then [Failure(e.id, BrokenLink)] else [])
    + (if e.hash != expectedHash then [Failure(e.id, WrongHash)] else [])
    + (if e.signature != k.SignatureOf(e.content, previousHash, expectedHash)
       then [Failure(e.id, WrongSignature)] else [])
  }

  function Failures(k: Crypto, entries: seq<Entry>, previousHash: string): (r: seq<Failure>) {
    if entries == [] then []
    else EntryFailures(k, entries[0], previousHash) + Failures(k, entries[1..], entries[0].hash)
  }

  /** Every entry is the link of its content to the entry before it. */
  predicate Chain(k: Crypto, entries: seq<Entry>, previousHash: string) {
    entries == [] ||
    (entries[0] == k.Link(entries[0].id, entries[0].content, previousHash) && Chain(k, entries[1..], entries[0].hash))
  }

  lemma EntryAccepted(k: Crypto, e: Entry, previousHash: string)
    ensures EntryFailures(k, e, previousHash) == [] <==> e == k.Link(e.id, e.content, previousHash)
  {
  }

  /** Verification reports nothing exactly when the entries form a chain. */
  lemma {:induction false} VerifiesIffChain(k: Crypto, entries: seq<Entry>, previousHash: string)
    ensures Failures(k, entries, previousHash) == [] <==> Chain(k, entries, previousHash)
  {
    hide EntryFailures;
    if entries != [] {
      EntryAccepted(k, entries[0], previousHash);
      VerifiesIffChain(k, entries[1..], entries[0].hash);
    }
  }

  /** The hash the next entry has to link to. */
  function Tip(entries: seq<Entry>, previousHash: string): (h: string) {
    if entries == [] then previousHash else entries[|entries| - 1].hash
  }

  lemma {:induction false} ChainSplit(k: Crypto, xs: seq<Entry>, ys: seq<Entry>, previousHash: string)
    ensures Chain(k, xs + ys, previousHash) <==> Chain(k, xs, previousHash) && Chain(k, ys, Tip(xs, previousHash))
  {
    if xs == [] {
      assert xs + ys == ys;
    } else {
      assert (xs + ys)[1..] == xs[1..] + ys;
      ChainSplit(k, xs[1..], ys, xs[0].hash);
      assert Tip(xs, previousHash) == Tip(xs[1..], xs[0].hash);
    }
  }

  /** The hash before position i. */
  function HashBefore(xs: seq<Entry>, i: nat): (h: string)
    requires i <= |xs|
  {
    Tip(xs[..i], "")
  }

  lemma ChainAt(k: Crypto, xs: seq<Entry>, i: nat)
    requires Chain(k, xs, "") && i < |xs|
    ensures xs[i].previousHash == HashBefore(xs, i)
    ensures Chain(k, xs[..i], "") && Chain(k, xs[i..], HashBefore(xs, i))
  {
    assert xs == xs[..i] + xs[i..];
    ChainSplit(k, xs[..i], xs[i..], "");
  }

  /** Deleting any entry but the last goes unnoticed exactly when its hash equals the hash before it;
      whenever the hashes differ, verification fails. */
  lemma DeletionDetected(k: Crypto, xs: seq<Entry>, i: nat)
    requires Chain(k, xs, "") && i < |xs| - 1
    ensures Failures(k, xs[..i] + xs[i + 1..], "") == [] <==> xs[i].hash == HashBefore(xs, i)
  {
    var rest := xs[i + 1..];
    VerifiesIffChain(k, xs[..i] + rest, "");
    ChainSplit(k, xs[..i], rest, "");
    ChainAt(k, xs, i);
    ChainAt(k, xs, i + 1);
    assert HashBefore(xs, i + 1) == xs[i].hash;
    assert rest[0] == xs[i + 1];
  }

  // ---------------------------------------------------------------------------------------
  // Orders

  /** compareEntries(a, b) <= 0 */
  predicate ServiceLe(a: Entry, b: Entry) {
    Ms(a.content.timestamp) < Ms(b.content.timestamp)
    || (Ms(a.content.timestamp) == Ms(b.content.timestamp) && a.id <= b.id)
  }

  /** ORDER BY timestamp ASC, id ASC, on the stored microseconds. */
  predicate DatabaseLe(a: Entry, b: Entry) {
    a.content.timestamp < b.content.timestamp
    || (a.content.timestamp == b.content.timestamp && a.id <= b.id)
  }

  lemma OrdersAreTotal()
    ensures TotalOrder(ServiceLe) && TotalOrder(DatabaseLe)
  {
  }

  /** An id names one entry. */
  ghost predicate IdsIdentify(xs: seq<Entry>) {
    forall a, b :: a in xs && b in xs && a.id == b.id ==> a == b
  }

  lemma IdsDistinguish(xs: seq<Entry>)
    requires IdsIdentify(xs)
    ensures Distinguishes(ServiceLe, xs) && Distinguishes(DatabaseLe, xs)
  {
  }

  /** The two orders rank these entries alike: within one millisecond the stored microseconds do not
      contradict the ids. */
  ghost predicate OrdersAgree(xs: seq<Entry>) {
    forall a, b :: a in xs && b in xs && DatabaseLe(a, b) ==> ServiceLe(a, b)
  }

  /** Entries written by the service carry whole milliseconds, so the orders agree on them. */
  lemma WholeMillisecondsAgree(xs: seq<Entry>)
    requires forall e :: e in xs ==> e.content.timestamp % 1000 == 0
    ensures OrdersAgree(xs)
  {
  }

  /** getOrderedEntries */
  function Ordered(archives: seq<Entry>, logs: seq<Entry>): (r: seq<Entry>) {
    Sort(ServiceLe, archives + logs)
  }

  /** The first entry of a table under ORDER BY timestamp DESC, id DESC. */
  function Newest(xs: seq<Entry>): (r: Option<Entry>) {
    if xs == [] then None
    else
      var rest := Newest(xs[1..]);
      if rest.None? || DatabaseLe(rest.value, xs[0]) then Some(xs[0]) else rest
  }

  /** getLatestEntry */
  function Latest(archives: seq<Entry>, logs: seq<Entry>): (r: Option<Entry>) {
    var log, archive := Newest(logs), Newest(archives);
    if log.None? then archive
    else if archive.None? then log
    else if ServiceLe(archive.value, log.value) then log
    else archive
  }

  lemma {:induction false} NewestIsGreatest(xs: seq<Entry>)
    requires xs != []
    ensures Newest(xs).Some? && Newest(xs).value in xs
    ensures forall e :: e in xs ==> DatabaseLe(e, Newest(xs).value)
  {
    if xs[1..] != [] {
      NewestIsGreatest(xs[1..]);
    }
    assert forall e :: e in xs <==> e == xs[0] || e in xs[1..];
  }

  lemma LatestIsGreatest(archives: seq<Entry>, logs: seq<Entry>)
    requires OrdersAgree(archives + logs) && archives + logs != []
    ensures var latest := Latest(archives, logs);
            && latest.Some? && latest.value in archives + logs
            && forall e :: e in archives + logs ==> ServiceLe(e, latest.value)
  {
    var xs := archives + logs;
    assert forall e :: e in xs <==> e in archives || e in logs;
    if archives != [] {
      NewestIsGreatest(archives);
      var a := Newest(archives).value;
      assert forall e :: e in archives ==> ServiceLe(e, a);
    }
    if logs != [] {
      NewestIsGreatest(logs);
      var b := Newest(logs).value;
      assert forall e :: e in logs ==> ServiceLe(e, b);
    }
  }

  /** Where the orders agree, the latest entry is the last of the ordered entries. */
  lemma LatestIsLast(archives: seq<Entry>, logs: seq<Entry>)
    requires IdsIdentify(archives + logs) && OrdersAgree(archives + logs)
    ensures var all := Ordered(archives, logs);
            Latest(archives, logs) == if all == [] then None else Some(all[|all| - 1])
  {
    hide ServiceLe, DatabaseLe, OrdersAgree;
    var xs := archives + logs;
    var all := Ordered(archives, logs);
    OrdersAreTotal();
    SortSorted(ServiceLe, xs);
    SortKeepsElements(ServiceLe, xs);
    if xs != [] {
      LatestIsGreatest(archives, logs);
      IdsDistinguish(xs);
      forall e ensures e in all <==> e in xs {
        SameElements(all, xs, e);
      }
      GreatestIsLast(ServiceLe, all, Latest(archives, logs).value);
    }
  }
}
