/** The chain writer: one transaction per entry, with rollback, behind the sanitizer. */
module AuditLog {
  import opened BigEndian
  import opened AuditChain
  import C = CanonicalBytes
  import S = Sanitizer
  import opened Wrappers

  datatype Event = Event(
    tsMs: int, actorUserId: Bytes, actorKind: Bytes, domain: Bytes, subjectId: Bytes, subjectKind: Bytes,
    action: Bytes, outcome: Bytes, details: S.Json)

  /**
   * Where the database fails during one append, if it does. A select of the head that cannot be prepared throws; one
   * that fails while it runs is taken for an empty table.
   */
  datatype Fault = NoFault | AtBegin | AtSelect | AtLookup | AtInsert | AtCommit

  /** The append goes through: without a fault, or if row 1, which a failing lookup leads to, is free. */
  predicate Lands(fault: Fault, table: Table) {
    fault.NoFault? || (fault.AtLookup? && 1 !in table)
  }

  /** "audit_record_rejected", "failure". */
  const REJECTED_ACTION: Bytes := [97, 117, 100, 105, 116, 95, 114, 101, 99, 111, 114, 100, 95, 114, 101, 106, 101, 99, 116, 101, 100]
  const FAILURE: Bytes := [102, 97, 105, 108, 117, 114, 101]

  // ---------- what one append does ----------

  ghost predicate IsHead(table: Table, k: int) {
    k in table && forall j :: j in table ==> j <= k
  }

  /** The number of the next row and the hash it points back to; a head that is not 32 bytes long counts as zeros. */
  function Follow(table: Table, head: Option<int>): (int, Bytes)
    requires head.Some? ==> head.value in table
  {
    if head.None? then (1, ZeroHash())
    else
      var h := table[head.value].entryHash;
      (head.value + 1, if |h| == C.HASH_LEN then h else ZeroHash())
  }

  function PreCommit(evt: Event, details: Bytes, seqNo: int, prev: Bytes): C.Entry {
    C.Entry(seqNo, evt.tsMs, evt.actorUserId, evt.actorKind, evt.domain, evt.subjectId, evt.subjectKind,
            evt.action, evt.outcome, details, prev)
  }

  function RowFor(hash: Hash, evt: Event, details: Bytes, seqNo: int, prev: Bytes): Row {
    Row(evt.tsMs * C.NANOS_PER_MS, Nullable(evt.actorUserId), evt.actorKind, Nullable(evt.domain), Nullable(evt.subjectId),
        Nullable(evt.subjectKind), evt.action, evt.outcome, Nullable(details), prev,
        hash(C.Canonical(PreCommit(evt, details, seqNo, prev))))
  }

  lemma SomeKey(keys: set<int>)
    requires keys != {}
    ensures exists k :: k in keys
  {
    if forall k :: k !in keys { assert false; }
  }

  class SqlAuditLog {
    const hash: Hash
    var rows: Table
    /** The table as it was when the open transaction began. */
    var saved: Option<Table>

    constructor (hash: Hash)
      ensures this.hash == hash && rows == map[] && saved.None?
    {
      this.hash, rows, saved := hash, map[], None;
    }

    method Begin(fault: Fault) returns (ok: bool)
      modifies this
      ensures rows == old(rows) && ok == !fault.AtBegin? && saved == if ok then Some(old(rows)) else old(saved)
    {
      ok := !fault.AtBegin?;
      if ok { saved := Some(rows); }
    }

    method Rollback()
      requires saved.Some?
      modifies this
      ensures rows == old(saved).value && saved.None?
    {
      rows, saved := saved.value, None;
    }

    /** `SELECT ... ORDER BY seq DESC LIMIT 1`. */
    method SelectHead() returns (head: Option<int>)
      ensures head.None? <==> rows == map[]
      ensures head.Some? ==> IsHead(rows, head.value)
    {
      var keys := rows.Keys;
      head := None;
      while keys != {}
        invariant keys <= rows.Keys
        invariant head.None? ==> keys == rows.Keys
        invariant head.Some? ==> head.value in rows && forall j :: j in rows && j !in keys ==> j <= head.value
        decreases |keys|
      {
        SomeKey(keys);
        var k :| k in keys;
        if head.None? || k > head.value { head := Some(k); }
        keys := keys - {k};
      }
    }

    /** Appends one entry, or leaves the table as it was. */
    method AppendLocked(evt: Event, details: Bytes, fault: Fault) returns (ok: bool)
      requires saved.None?
      modifies this
      ensures saved.None? && ok == Lands(fault, old(rows))
      ensures if ok then Appended(hash, old(rows), evt, details, fault, rows) else rows == old(rows)
    {
      hide C.Canonical;
      ok := Begin(fault);
      if !ok { return; }
      if fault.AtSelect? { Rollback(); return false; }
      var prevHash, nextSeq := ZeroHash(), 1;
      var head := None;
      if !fault.AtLookup? { head := SelectHead(); }
      if head.Some? {
        nextSeq := head.value + 1;
        var blob := rows[head.value].entryHash;
        if |blob| == C.HASH_LEN {
          prevHash := blob;
        } else {
          prevHash := ZeroHash();
        }
      }
      var canonical := C.ComputeCanonicalBytes(PreCommit(evt, details, nextSeq, prevHash));
      if canonical.InvalidArgument? || fault.AtInsert? || nextSeq in rows { Rollback(); return false; }
      var entryHash := hash(canonical.value);
      rows := rows[nextSeq := Row(evt.tsMs * C.NANOS_PER_MS, Nullable(evt.actorUserId), evt.actorKind, Nullable(evt.domain),
                                  Nullable(evt.subjectId), Nullable(evt.subjectKind), evt.action, evt.outcome,
                                  Nullable(details), prevHash, entryHash)];
      if fault.AtCommit? { Rollback(); return false; }
      assert !fault.AtLookup? ==> AppendsAfter(hash, old(rows), head, evt, details, rows);
      saved := None;
    }

    /** Records an event, or a note that its payload was refused. Only a failed append of the event itself reaches the caller. */
    method Record(evt: Event, dump: S.Dump, fault: Fault) returns (threw: bool)
      requires saved.None?
      modifies this
      ensures saved.None? && Records(hash, dump, old(rows), Call(evt, fault), rows)
      ensures threw <==> !Lands(fault, old(rows)) && S.Sanitize(evt.details, dump).Accepted?
    {
      hide S.Sanitize, Appended, Lands;
      S.AcceptsExactly(evt.details, dump);
      S.AcceptsExactly(S.REJECTION, dump);
      var verdict := S.Sanitize(evt.details, dump);
      if !verdict.Accepted? {
        var rejection := Rejection(evt);
        if S.Sanitize(rejection.details, dump).Accepted? {
          var _ := AppendLocked(rejection, dump(rejection.details).value, fault);
        }
        return false;
      }
      var ok := AppendLocked(evt, dump(evt.details).value, fault);
      threw := !ok;
    }
  }

  // ---------- runs ----------

  datatype Call = Call(evt: Event, fault: Fault)

  ghost predicate AppendsAfter(hash: Hash, before: Table, head: Option<int>, evt: Event, details: Bytes, after: Table) {
    && (head.None? <==> before == map[]) && (head.Some? ==> IsHead(before, head.value))
    && var (seqNo, prev) := Follow(before, head);
       after == before[seqNo := RowFor(hash, evt, details, seqNo, prev)]
  }

  /** `after` is `before` with one entry appended after its newest row. */
  ghost predicate Appends(hash: Hash, before: Table, evt: Event, details: Bytes, after: Table) {
    exists head :: AppendsAfter(hash, before, head, evt, details, after)
  }

  /** What an append that goes through does, whether or not it could see the newest row. */
  ghost predicate Appended(hash: Hash, before: Table, evt: Event, details: Bytes, fault: Fault, after: Table) {
    if fault.AtLookup? then after == before[1 := RowFor(hash, evt, details, 1, ZeroHash())]
    else Appends(hash, before, evt, details, after)
  }

  /** In a chain a lookup that fails while it runs lets through the first row only, which is then as it should be. */
  lemma FailedLookupOnChain(hash: Hash, before: Table, n: nat, evt: Event, details: Bytes, fault: Fault, after: Table)
    requires Chain(hash, before, n) && fault.AtLookup?
    ensures Lands(fault, before) <==> n == 0
    ensures Lands(fault, before) && Appended(hash, before, evt, details, fault, after) ==> Appends(hash, before, evt, details, after)
  {
    if n == 0 {
      assert forall k :: k !in before;
      assert before == map[];
      if Appended(hash, before, evt, details, fault, after) {
        assert AppendsAfter(hash, before, None, evt, details, after);
      }
    }
  }

  /** On a chain, a call goes through exactly if nothing fails, or if only the lookup of the head does and there is none. */
  lemma LandsOnChain(hash: Hash, t: Table, n: nat, fault: Fault)
    requires Chain(hash, t, n)
    ensures Lands(fault, t) <==> fault == NoFault || (fault == AtLookup && n == 0)
  {}

  /** The controlled event that stands in for one whose payload was refused. */
  function Rejection(evt: Event): Event {
    evt.(action := REJECTED_ACTION, outcome := FAILURE, details := S.REJECTION)
  }

  /** The event and payload text that a call writes: its own if the sanitizer accepts it, else the stand-in's. */
  function Written(evt: Event, dump: S.Dump): Option<(Event, Bytes)> {
    if S.Sanitize(evt.details, dump).Accepted? then Some((evt, Serialized(evt.details, dump)))
    else if S.Sanitize(S.REJECTION, dump).Accepted? then Some((Rejection(evt), Serialized(S.REJECTION, dump)))
    else None
  }

  function Serialized(details: S.Json, dump: S.Dump): Bytes {
    if dump(details).Some? then dump(details).value else []
  }

  /** What one call of `record` does to the table. */
  ghost predicate Records(hash: Hash, dump: S.Dump, before: Table, call: Call, after: Table) {
    var w := Written(call.evt, dump);
    if w.None? || !Lands(call.fault, before) then after == before
    else Appended(hash, before, w.value.0, w.value.1, call.fault, after)
  }

  /** The tables before, between and after a sequence of calls on a new log. */
  ghost predicate Run(hash: Hash, dump: S.Dump, calls: seq<Call>, tables: seq<Table>) {
    && |tables| == |calls| + 1 && tables[0] == map[]
    && forall i :: 0 <= i < |calls| ==> Records(hash, dump, tables[i], calls[i], tables[i + 1])
  }

  /** How many of the calls went through. */
  function Landed(calls: seq<Call>, tables: seq<Table>): nat
    requires |tables| == |calls| + 1
  {
    if calls == [] then 0
    else
      var n := |calls| - 1;
      Landed(calls[..n], tables[..n + 1]) + if Lands(calls[n].fault, tables[n]) then 1 else 0
  }

  lemma HeadOfChain(hash: Hash, t: Table, n: nat, head: Option<int>)
    requires Chain(hash, t, n)
    requires (head.None? <==> t == map[]) && (head.Some? ==> IsHead(t, head.value))
    ensures head == if n == 0 then None else Some(n)
    ensures n > 0 ==> |t[n].entryHash| == C.HASH_LEN
  {
    hide C.Canonical;
    if n > 0 {
      assert n in t && Linked(hash, t, n);
    } else {
      assert t == map[];
    }
  }

  /** Appending to a chain of n rows gives a chain of n + 1, whose head was well formed. */
  lemma AppendExtendsChain(hash: Hash, before: Table, n: nat, evt: Event, details: Bytes, after: Table)
    requires Chain(hash, before, n) && Appends(hash, before, evt, details, after)
    ensures Chain(hash, after, n + 1)
    ensures after == before[n + 1 := RowFor(hash, evt, details, n + 1, PrevHash(before, n + 1))]
    ensures EntryOf(n + 1, after[n + 1]) == PreCommit(evt, details, n + 1, PrevHash(before, n + 1))
  {
    hide C.Canonical;
    var head :| AppendsAfter(hash, before, head, evt, details, after);
    HeadOfChain(hash, before, n, head);
    forall k | 1 <= k <= n + 1 ensures Linked(hash, after, k) {
      if k <= n { assert Linked(hash, before, k); }
    }
  }

  /** A call that goes through on a chain of n rows leaves a chain of n + 1. */
  lemma RecordExtendsChain(hash: Hash, dump: S.Dump, before: Table, n: nat, call: Call, after: Table)
    requires Chain(hash, before, n) && Records(hash, dump, before, call, after) && S.Sanitize(S.REJECTION, dump).Accepted?
    requires Lands(call.fault, before)
    ensures Written(call.evt, dump).Some? && Appends(hash, before, Written(call.evt, dump).value.0, Written(call.evt, dump).value.1, after)
    ensures Chain(hash, after, n + 1)
  {
    hide C.Canonical, S.Sanitize, Appends, Chain;
    var w := Written(call.evt, dump).value;
    if call.fault.AtLookup? { FailedLookupOnChain(hash, before, n, w.0, w.1, call.fault, after); }
    AppendExtendsChain(hash, before, n, w.0, w.1, after);
  }

  /** Every reachable table is a chain, with one row for each call that went through. */
  lemma {:induction false} ReachableTablesAreChains(hash: Hash, dump: S.Dump, calls: seq<Call>, tables: seq<Table>)
    requires Run(hash, dump, calls, tables) && S.Sanitize(S.REJECTION, dump).Accepted?
    ensures Chain(hash, tables[|calls|], Landed(calls, tables))
  {
    hide C.Canonical, S.Sanitize, Appended, Lands;
    if calls != [] {
      var n, last := |calls| - 1, calls[|calls| - 1];
      ReachableTablesAreChains(hash, dump, calls[..n], tables[..n + 1]);
      assert Records(hash, dump, tables[n], last, tables[n + 1]);
      if Lands(last.fault, tables[n]) {
        RecordExtendsChain(hash, dump, tables[n], Landed(calls[..n], tables[..n + 1]), last, tables[n + 1]);
      }
    }
  }

  /** A rejected payload leaves exactly one row too, and none of the payload in it. */
  lemma RejectionIsRecorded(hash: Hash, dump: S.Dump, before: Table, n: nat, evt: Event, after: Table)
    requires Chain(hash, before, n) && Records(hash, dump, before, Call(evt, NoFault), after)
    requires !S.Sanitize(evt.details, dump).Accepted? && S.Sanitize(S.REJECTION, dump).Accepted?
    ensures Chain(hash, after, n + 1)
    ensures after[n + 1].action == REJECTED_ACTION && after[n + 1].outcome == FAILURE
    ensures Text(after[n + 1].detailsJson) == Serialized(S.REJECTION, dump)
  {
    hide C.Canonical, S.Sanitize, Appends;
    AppendExtendsChain(hash, before, n, Rejection(evt), Serialized(S.REJECTION, dump), after);
  }

  // ---------- the rows it writes say what happened ----------

  /** The row keeps who, about what and when. */
  ghost predicate Concerns(row: Row, evt: Event) {
    && row.actorUserId == (if evt.actorUserId == [] then None else Some(evt.actorUserId)) && row.actorKind == evt.actorKind
    && row.domain == (if evt.domain == [] then None else Some(evt.domain))
    && row.subjectId == (if evt.subjectId == [] then None else Some(evt.subjectId))
    && row.subjectKind == (if evt.subjectKind == [] then None else Some(evt.subjectKind))
    && row.tsUnixNanos == evt.tsMs * 1_000_000
  }

  /** The bytes of "audit_record_rejected" and "failure". */
  ghost predicate SaysRejected(row: Row) {
    && |row.action| == 21 && (forall i :: 0 <= i < 21 ==> row.action[i] == "audit_record_rejected"[i] as int)
    && |row.outcome| == 7 && (forall i :: 0 <= i < 7 ==> row.outcome[i] == "failure"[i] as int)
  }

  /** What the row of a call says, according to whether its payload was accepted. */
  ghost predicate Tells(row: Row, call: Call, dump: S.Dump) {
    && Concerns(row, call.evt)
    && if S.Sanitize(call.evt.details, dump).Accepted? then
         row.action == call.evt.action && row.outcome == call.evt.outcome && Holds(row.detailsJson, dump(call.evt.details))
       else
         SaysRejected(row) && Holds(row.detailsJson, dump(S.Obj([S.Field("kind", S.Str("sanitizer_rejected_payload"))])))
  }

  /** The stored text is this one, NULL standing for the empty text. */
  ghost predicate Holds(stored: Option<Bytes>, text: Option<Bytes>) {
    text.Some? && stored == if text.value == [] then None else text
  }

  lemma RejectedTexts()
    ensures |REJECTED_ACTION| == 21 && forall i :: 0 <= i < 21 ==> REJECTED_ACTION[i] == "audit_record_rejected"[i] as int
    ensures |FAILURE| == 7 && forall i :: 0 <= i < 7 ==> FAILURE[i] == "failure"[i] as int
  {}

  lemma AcceptedHasText(details: S.Json, dump: S.Dump)
    requires S.Sanitize(details, dump).Accepted?
    ensures dump(details) == Some(Serialized(details, dump))
  {
    hide S.CleanEverywhere, S.Sanitize;
    S.AcceptsExactly(details, dump);
  }

  /** The row that a call appends tells of the call. */
  lemma NewRowTells(hash: Hash, dump: S.Dump, before: Table, n: nat, call: Call, after: Table)
    requires Chain(hash, before, n) && Records(hash, dump, before, call, after) && S.Sanitize(S.REJECTION, dump).Accepted?
    requires Lands(call.fault, before)
    ensures n + 1 in after && Tells(after[n + 1], call, dump)
    ensures forall k :: k in before ==> k in after && after[k] == before[k]
  {
    RecordExtendsChain(hash, dump, before, n, call, after);
    hide C.Canonical, S.Sanitize, Appends, Serialized, Records;
    var w := Written(call.evt, dump).value;
    AppendExtendsChain(hash, before, n, w.0, w.1, after);
    if S.Sanitize(call.evt.details, dump).Accepted? {
      AcceptedHasText(call.evt.details, dump);
    } else {
      AcceptedHasText(S.REJECTION, dump);
      RejectedTexts();
    }
  }

  /** In every run, the row of each call that went through is still there at the end and tells of that call. */
  lemma {:induction false} RowsTellTheirCalls(hash: Hash, dump: S.Dump, calls: seq<Call>, tables: seq<Table>, i: nat)
    requires Run(hash, dump, calls, tables) && S.Sanitize(S.REJECTION, dump).Accepted?
    requires i < |calls| && Lands(calls[i].fault, tables[i])
    ensures var k := Landed(calls[..i], tables[..i + 1]) + 1;
            k in tables[|calls|] && Tells(tables[|calls|][k], calls[i], dump)
  {
    hide C.Canonical, S.Sanitize, Appended, Lands, Tells;
    var n := |calls| - 1;
    ReachableTablesAreChains(hash, dump, calls[..n], tables[..n + 1]);
    assert Records(hash, dump, tables[n], calls[n], tables[n + 1]);
    var m := Landed(calls[..n], tables[..n + 1]);
    if i == n {
      NewRowTells(hash, dump, tables[n], m, calls[n], tables[n + 1]);
    } else {
      assert calls[..n][..i] == calls[..i] && tables[..n + 1][..i + 1] == tables[..i + 1] && calls[..n][i] == calls[i] && tables[..n + 1][i] == tables[i];
      RowsTellTheirCalls(hash, dump, calls[..n], tables[..n + 1], i);
      if Lands(calls[n].fault, tables[n]) {
        NewRowTells(hash, dump, tables[n], m, calls[n], tables[n + 1]);
      }
    }
  }

  // ---------- the rows it writes can be read back ----------

  ghost predicate PlainEvent(evt: Event) {
    && C.Int64(evt.tsMs * C.NANOS_PER_MS)
    && C.NulFree(evt.actorUserId) && C.NulFree(evt.actorKind) && C.NulFree(evt.domain) && C.NulFree(evt.subjectId)
    && C.NulFree(evt.subjectKind) && C.NulFree(evt.action) && C.NulFree(evt.outcome)
  }

  /** The payload cap keeps every length prefix exact, so the entries of plain events parse back. */
  lemma {:induction false} ReachableTablesAreReadable(hash: Hash, dump: S.Dump, calls: seq<Call>, tables: seq<Table>)
    requires Run(hash, dump, calls, tables) && S.Sanitize(S.REJECTION, dump).Accepted?
    requires |calls| < C.I64 && forall c :: c in calls ==> PlainEvent(c.evt)
    ensures Readable(tables[|calls|])
    ensures Landed(calls, tables) <= |calls|
  {
    hide C.Canonical, S.Sanitize, Appended, Appends, Lands;
    if calls != [] {
      var n, last := |calls| - 1, calls[|calls| - 1];
      ReachableTablesAreReadable(hash, dump, calls[..n], tables[..n + 1]);
      ReachableTablesAreChains(hash, dump, calls[..n], tables[..n + 1]);
      assert Records(hash, dump, tables[n], last, tables[n + 1]);
      if Lands(last.fault, tables[n]) {
        var m := Landed(calls[..n], tables[..n + 1]);
        RecordExtendsChain(hash, dump, tables[n], m, last, tables[n + 1]);
        var w := Written(last.evt, dump).value;
        AppendExtendsChain(hash, tables[n], m, w.0, w.1, tables[n + 1]);
        WrittenIsPlain(last.evt, dump);
        PlainEntry(hash, tables[n], m, w.0, w.1);
      }
    }
  }

  lemma WrittenIsPlain(evt: Event, dump: S.Dump)
    requires PlainEvent(evt) && Written(evt, dump).Some?
    ensures var w := Written(evt, dump).value; PlainEvent(w.0) && |w.1| <= S.MAX_TOTAL_BYTES
  {
    hide S.Sanitize, Serialized;
    StandInTextsArePlain();
    if S.Sanitize(evt.details, dump).Accepted? {
      AcceptedIsShort(evt.details, dump);
    } else {
      AcceptedIsShort(S.REJECTION, dump);
    }
  }

  lemma AcceptedIsShort(details: S.Json, dump: S.Dump)
    requires S.Sanitize(details, dump).Accepted?
    ensures |Serialized(details, dump)| <= S.MAX_TOTAL_BYTES
  {
    hide S.CleanEverywhere, S.Sanitize;
    S.AcceptsExactly(details, dump);
  }

  lemma StandInTextsArePlain()
    ensures C.NulFree(REJECTED_ACTION) && C.NulFree(FAILURE)
  {}

  lemma PlainEntry(hash: Hash, t: Table, n: nat, evt: Event, details: Bytes)
    requires Chain(hash, t, n) && n + 1 < C.I64 && PlainEvent(evt) && |details| <= S.MAX_TOTAL_BYTES
    ensures C.WellFormed(PreCommit(evt, details, n + 1, PrevHash(t, n + 1)))
  {
    hide C.Canonical;
    if n > 0 { assert Linked(hash, t, n); }
    var e := PreCommit(evt, details, n + 1, PrevHash(t, n + 1));
    assert e.Texts() == [evt.actorUserId, evt.actorKind, evt.domain, evt.subjectId, evt.subjectKind, evt.action, evt.outcome];
  }
}
