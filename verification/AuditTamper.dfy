/** What the hash and the signature of an audit entry cover, and which alterations verification notices
    (Backend/src/audit/audit.service.ts). */
module AuditTamper {
  import opened Wrappers
  import opened Sorting
  import opened AuditChain
  import opened AuditTables

  /** The hash that verification expects, from the abstract digest. */
  function Digest(k: Crypto, c: Content, previousHash: string): (h: string) {
    k.digest(previousHash, c.actionType, c.actorId, c.timestamp / 1000)
  }

  /** The signature that verification expects, from the abstract signature. */
  function Sign(k: Crypto, c: Content, previousHash: string): (s: string) {
    k.sign(c.actionType, c.actorId, c.entityId, c.metadata, c.timestamp / 1000,
           previousHash, Digest(k, c, previousHash))
  }

  /** Verification reports an entry with a broken link, a wrong hash or a wrong signature exactly when its
      previous hash is not the one before it, its hash not the digest of previous hash, action, actor and
      millisecond, its signature not that of action, actor, entity, metadata, millisecond, previous hash
      and digest. */
  lemma ReasonsExact(k: Crypto, e: Entry, previousHash: string)
    ensures var r := EntryFailures(k, e, previousHash);
            && (forall f :: f in r ==> f.id == e.id)
            && (Failure(e.id, BrokenLink) in r <==> e.previousHash != previousHash)
            && (Failure(e.id, WrongHash) in r <==> e.hash != Digest(k, e.content, previousHash))
            && (Failure(e.id, WrongSignature) in r <==> e.signature != Sign(k, e.content, previousHash))
  {
    var r := EntryFailures(k, e, previousHash);
    if e.previousHash != previousHash {
      assert r[0] == Failure(e.id, BrokenLink);
    }
    if e.signature != Sign(k, e.content, previousHash) {
      assert r[|r| - 1] == Failure(e.id, WrongSignature);
    }
    if e.hash != Digest(k, e.content, previousHash) {
      assert Failure(e.id, WrongHash) in r;
    }
  }

  lemma NoReasonNoFailure(k: Crypto, e: Entry, previousHash: string)
    ensures EntryFailures(k, e, previousHash) == [] <==>
              && e.previousHash == previousHash && e.hash == Digest(k, e.content, previousHash)
              && e.signature == Sign(k, e.content, previousHash)
  {
    EntryAccepted(k, e, previousHash);
  }

  /** A linked entry whose content is then altered passes exactly when digest and signature agree on the
      fields of both contents. */
  lemma AlterationPassesIff(k: Crypto, id: nat, c: Content, d: Content, previousHash: string)
    ensures EntryFailures(k, k.Link(id, c, previousHash).(content := d), previousHash) == [] <==>
              var h := k.digest(previousHash, c.actionType, c.actorId, c.timestamp / 1000);
              && h == k.digest(previousHash, d.actionType, d.actorId, d.timestamp / 1000)
              && k.sign(c.actionType, c.actorId, c.entityId, c.metadata, c.timestamp / 1000, previousHash, h)
                 == k.sign(d.actionType, d.actorId, d.entityId, d.metadata, d.timestamp / 1000, previousHash, h)
  {
    NoReasonNoFailure(k, k.Link(id, c, previousHash).(content := d), previousHash);
    hide EntryFailures;
  }

  /** Failures are local: each entry is judged against the stored hash before it. */
  lemma {:induction false} FailuresSplit(k: Crypto, xs: seq<Entry>, ys: seq<Entry>, previousHash: string)
    ensures Failures(k, xs + ys, previousHash) == Failures(k, xs, previousHash) + Failures(k, ys, Tip(xs, previousHash))
  {
    hide EntryFailures;
    if xs == [] {
      assert xs + ys == ys;
    } else {
      assert (xs + ys)[1..] == xs[1..] + ys;
      FailuresSplit(k, xs[1..], ys, xs[0].hash);
    }
  }

  /** Altering the content of one entry of a verified log, without reordering it, is reported for that entry
      and for no other. */
  lemma AlterationReported(k: Crypto, xs: seq<Entry>, i: nat, d: Content)
    requires Chain(k, xs, "") && i < |xs|
    ensures var e := xs[i].(content := d);
            Failures(k, xs[i := e], "") == EntryFailures(k, e, HashBefore(xs, i))
  {
    hide EntryFailures, Chain, Failures;
    var e := xs[i].(content := d);
    var before, after := xs[..i], xs[i + 1..];
    assert xs == before + ([xs[i]] + after) && xs[i := e] == before + ([e] + after);
    FailuresSplit(k, before, [e] + after, "");
    FailuresSplit(k, [e], after, Tip(before, ""));
    ChainSplit(k, before, [xs[i]] + after, "");
    ChainSplit(k, [xs[i]], after, Tip(before, ""));
    VerifiesIffChain(k, before, "");
    VerifiesIffChain(k, after, xs[i].hash);
    FailuresOfOne(k, e, Tip(before, ""));
  }

  lemma FailuresOfOne(k: Crypto, e: Entry, previousHash: string)
    ensures Failures(k, [e], previousHash) == EntryFailures(k, e, previousHash)
  {
    hide EntryFailures;
    assert Failures(k, [e][1..], e.hash) == [];
  }

  // ---------------------------------------------------------------------------------------
  // Signatures that cannot be forged

  /** Equal signatures are signatures of equal arguments. */
  ghost predicate Binding(k: Crypto) {
    forall a1, a2, e1, e2, m1, m2, t1, t2, p1, p2, h1, h2, x1, x2 ::
      k.sign(a1, x1, e1, m1, t1, p1, h1) == k.sign(a2, x2, e2, m2, t2, p2, h2) ==>
        a1 == a2 && x1 == x2 && e1 == e2 && m1 == m2 && t1 == t2 && p1 == p2 && h1 == h2
  }

  /** What a signature vouches for. */
  predicate SameFacts(c: Content, d: Content) {
    && c.actionType == d.actionType && c.actorId == d.actorId && c.entityId == d.entityId
    && c.metadata == d.metadata && c.timestamp / 1000 == d.timestamp / 1000
  }

  lemma {:induction false} EntrySigned(k: Crypto, xs: seq<Entry>, previousHash: string, e: Entry)
    requires Chain(k, xs, previousHash) && e in xs
    ensures e.hash == Digest(k, e.content, e.previousHash) && e.signature == Sign(k, e.content, e.previousHash)
    decreases |xs|
  {
    if e != xs[0] {
      EntrySigned(k, xs[1..], xs[0].hash, e);
    }
  }

  /** With a binding signature, entries of any two verified states of the tables that carry the same
      signature record the same action, actor, entity, metadata and millisecond, with the same hash and
      previous hash. So an alteration of any of these, by whatever reordering it is accompanied, makes
      verification fail. */
  lemma AlterationDetected(k: Crypto, t: Tables, u: Tables, e: Entry, f: Entry)
    requires Binding(k) && t.Verifies(k) && u.Verifies(k)
    requires e in t.All() && f in u.All() && e.signature == f.signature
    ensures SameFacts(e.content, f.content) && e.hash == f.hash && e.previousHash == f.previousHash
  {
    hide Chain, Failures, Sort, ServiceLe;
    EntriesAreAll(t);
    EntriesAreAll(u);
    VerifiesIffChain(k, t.Entries(), "");
    VerifiesIffChain(k, u.Entries(), "");
    EntrySigned(k, t.Entries(), "", e);
    EntrySigned(k, u.Entries(), "", f);
  }
}
