/** The audit table as a hash chain: what a row says, what links it, and what equal heads prove. */
module AuditChain {
  import opened BigEndian
  import C = CanonicalBytes
  import opened Wrappers

  /** Thirty-two zero bytes, which the first row points back to. */
  function ZeroHash(): (z: Bytes)
    ensures |z| == C.HASH_LEN && forall i :: 0 <= i < |z| ==> z[i] == 0
  {
    seq(C.HASH_LEN, _ => 0)
  }

  /** BLAKE2b-256 is any function to 32 bytes; nothing else about it is used. */
  type Digest = d: Bytes | |d| == C.HASH_LEN witness ZeroHash()
  type Hash = Bytes -> Digest

  /** A stored row; `None` is SQL NULL. Its key in the table is `seq`. */
  datatype Row = Row(
    tsUnixNanos: int, actorUserId: Option<Bytes>, actorKind: Bytes, domain: Option<Bytes>, subjectId: Option<Bytes>,
    subjectKind: Option<Bytes>, action: Bytes, outcome: Bytes, detailsJson: Option<Bytes>, prevHash: Bytes, entryHash: Bytes)

  /** `audit_log`, by primary key. */
  type Table = map<int, Row>

  /** NULL read back as the empty string. */
  function Text(t: Option<Bytes>): Bytes {
    if t.Some? then t.value else []
  }

  /** Empty text is stored as NULL. */
  function Nullable(t: Bytes): Option<Bytes> {
    if t == [] then None else Some(t)
  }

  /** The entry a stored row stands for. */
  function EntryOf(seqNo: int, r: Row): C.Entry {
    C.Entry(seqNo, r.tsUnixNanos / C.NANOS_PER_MS, Text(r.actorUserId), r.actorKind, Text(r.domain), Text(r.subjectId),
            Text(r.subjectKind), r.action, r.outcome, Text(r.detailsJson), r.prevHash)
  }

  /** The hash that row `k` has to point back to. */
  function PrevHash(table: Table, k: int): Bytes {
    if k - 1 in table then table[k - 1].entryHash else ZeroHash()
  }

  /** Row `k` points back to its predecessor and its own hash recomputes from what is stored. */
  ghost predicate Linked(hash: Hash, table: Table, k: int)
    requires k in table
  {
    && table[k].prevHash == PrevHash(table, k)
    && table[k].entryHash == hash(C.Canonical(EntryOf(k, table[k])))
  }

  /** Rows 1..n without gaps, each linked to the one before. */
  ghost predicate Chain(hash: Hash, table: Table, n: nat) {
    && (forall k :: k in table <==> 1 <= k <= n)
    && (forall k {:trigger Linked(hash, table, k)} :: k in table ==> Linked(hash, table, k))
  }

  /** Every entry of the chain can be read back from its canonical bytes. */
  ghost predicate Readable(table: Table) {
    forall k :: k in table ==> C.WellFormed(EntryOf(k, table[k]))
  }

  /** The newest hash, if there is any row. */
  function HeadHash(table: Table, n: nat): Option<Bytes>
    requires n > 0 ==> n in table
  {
    if n == 0 then None else Some(table[n].entryHash)
  }

  /** The two tables say the same in rows 1..n. */
  ghost predicate SameRows(t1: Table, t2: Table, n: nat) {
    forall k :: 1 <= k <= n && k in t1 && k in t2 ==>
      EntryOf(k, t1[k]) == EntryOf(k, t2[k]) && t1[k].entryHash == t2[k].entryHash
  }

  ghost predicate Collision(hash: Hash, c: Option<(Bytes, Bytes)>) {
    c.Some? && c.value.0 != c.value.1 && hash(c.value.0) == hash(c.value.1)
  }

  /** Two entries with the same hash are equal, or their bytes collide. */
  lemma SameHashSameEntry(hash: Hash, e: C.Entry, f: C.Entry) returns (c: Option<(Bytes, Bytes)>)
    requires C.WellFormed(e) && C.WellFormed(f) && hash(C.Canonical(e)) == hash(C.Canonical(f))
    ensures c.None? ==> e == f
    ensures c.Some? ==> Collision(hash, c)
  {
    hide C.Canonical, C.WellFormed;
    if C.Canonical(e) != C.Canonical(f) { return Some((C.Canonical(e), C.Canonical(f))); }
    C.CanonicalInjective(e, f);
    c := None;
  }

  /**
   * Tamper evidence. Two chains whose newest hashes agree have the same length and the same entries,
   * or the proof hands back two different byte strings with the same hash.
   */
  lemma EqualHeadsMeanEqualChains(hash: Hash, t1: Table, n1: nat, t2: Table, n2: nat) returns (c: Option<(Bytes, Bytes)>)
    requires Chain(hash, t1, n1) && Chain(hash, t2, n2) && Readable(t1) && Readable(t2)
    requires HeadHash(t1, n1) == HeadHash(t2, n2)
    ensures c.None? ==> n1 == n2 && SameRows(t1, t2, n1)
    ensures c.Some? ==> Collision(hash, c)
  {
    if n1 == 0 { return None; }
    hide C.Canonical, C.WellFormed, Text, Collision, Chain, Readable;
    LinkAt(hash, t1, n1, n1);
    LinkAt(hash, t2, n2, n2);
    c := SameHashSameEntry(hash, EntryOf(n1, t1[n1]), EntryOf(n2, t2[n2]));
    if c.None? {
      c := SameBelow(hash, t1, t2, n1, n1);
    }
  }

  /** What a chain says about one row and, below the first, about the row before it. */
  lemma LinkAt(hash: Hash, t: Table, n: nat, k: nat)
    requires Chain(hash, t, n) && Readable(t) && 1 <= k <= n
    ensures k in t && C.WellFormed(EntryOf(k, t[k])) && t[k].entryHash == hash(C.Canonical(EntryOf(k, t[k])))
    ensures k > 1 ==> k - 1 in t && EntryOf(k, t[k]).prevHash == t[k - 1].entryHash
  {
    hide C.Canonical, C.WellFormed;
    assert Linked(hash, t, k);
  }

  /** The same, row by row from the top: rows `k` agree, so their predecessors' hashes do. */
  lemma SameBelow(hash: Hash, t1: Table, t2: Table, n: nat, k: nat) returns (c: Option<(Bytes, Bytes)>)
    requires Chain(hash, t1, n) && Chain(hash, t2, n) && Readable(t1) && Readable(t2) && 1 <= k <= n
    requires k in t1 && k in t2 && EntryOf(k, t1[k]) == EntryOf(k, t2[k]) && t1[k].entryHash == t2[k].entryHash
    ensures c.None? ==> SameRows(t1, t2, k)
    ensures c.Some? ==> Collision(hash, c)
  {
    hide C.Canonical, C.WellFormed, EntryOf, Collision, Chain, Readable;
    if k == 1 { return None; }
    LinkAt(hash, t1, n, k);
    LinkAt(hash, t2, n, k);
    LinkAt(hash, t1, n, k - 1);
    LinkAt(hash, t2, n, k - 1);
    c := SameHashSameEntry(hash, EntryOf(k - 1, t1[k - 1]), EntryOf(k - 1, t2[k - 1]));
    if c.None? {
      c := SameBelow(hash, t1, t2, n, k - 1);
    }
  }

  /** The first row of a chain points back to thirty-two zero bytes, every other to the hash of the row before it. */
  lemma RowsPointBack(hash: Hash, t: Table, n: nat, k: nat)
    requires Chain(hash, t, n) && 1 <= k <= n
    ensures k in t && |t[k].prevHash| == 32
    ensures k == 1 ==> forall i :: 0 <= i < 32 ==> t[k].prevHash[i] == 0
    ensures k > 1 ==> k - 1 in t && t[k].prevHash == t[k - 1].entryHash
  {
    hide C.Canonical;
    assert Linked(hash, t, k);
    if k > 1 { assert Linked(hash, t, k - 1); }
  }

  /** What is hashed is the number, the time, the stored texts with NULL as the empty one, and the previous hash, in this order. */
  lemma HashCoversRow(hash: Hash, t: Table, n: nat, k: nat)
    requires Chain(hash, t, n) && 1 <= k <= n && t[k].tsUnixNanos % 1_000_000 == 0
    ensures var r := t[k];
            r.entryHash == hash(
              Encode(k % 0x1_0000_0000_0000_0000, 8) + Encode(r.tsUnixNanos % 0x1_0000_0000_0000_0000, 8)
              + (if r.actorUserId.None? then [] else r.actorUserId.value) + [0] + r.actorKind + [0]
              + (if r.domain.None? then [] else r.domain.value) + [0]
              + (if r.subjectId.None? then [] else r.subjectId.value) + [0]
              + (if r.subjectKind.None? then [] else r.subjectKind.value) + [0] + r.action + [0] + r.outcome + [0]
              + Encode(if r.detailsJson.None? then 0 else |r.detailsJson.value|, 4)
              + (if r.detailsJson.None? then [] else r.detailsJson.value) + r.prevHash)
  {
    hide C.Canonical, Encode;
    assert Linked(hash, t, k);
    C.Layout(EntryOf(k, t[k]));
  }
}
