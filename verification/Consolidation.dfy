/** Merging downloaded transactions into the local list without duplicates and without losing the user's edits. */
module Consolidation {

  /** Amounts in cents: the merge only looks at them through their two-decimal text. */
  datatype Transaction = Transaction(
    id: string, accountId: string, date: string, amountCents: int, description: string, categoryId: string,
    pending: bool, plaidId: string, notes: string, checkNumber: string)

  datatype Key = Key(plaidId: string, amountCents: int, date: string)

  datatype Counts = Counts(added: nat, duplicates: nat, updated: nat)

  function KeyOf(t: Transaction): Key { Key(t.plaidId, t.amountCents, t.date) }

  /** The keys of the rows that came from Plaid. */
  function KeysOf(rows: seq<Transaction>): set<Key> {
    set i | 0 <= i < |rows| && rows[i].plaidId != "" :: KeyOf(rows[i])
  }

  /** The first row with this plaid id, or the length of the list. */
  function Find(rows: seq<Transaction>, plaidId: string): (i: nat)
    ensures i <= |rows|
    ensures i < |rows| ==> rows[i].plaidId == plaidId && plaidId != ""
    ensures plaidId != "" ==> forall j :: 0 <= j < i ==> rows[j].plaidId != plaidId
  {
    if rows == [] then 0
    else if rows[0].plaidId == plaidId && plaidId != "" then 0
    else 1 + Find(rows[1..], plaidId)
  }

  /** What a re-downloaded transaction may change in its row: fill in missing notes and category, and the pending flag. */
  function Refreshed(row: Transaction, t: Transaction): Transaction {
    row.(notes := if row.notes == "" then t.notes else row.notes,
         categoryId := if row.categoryId == "" then t.categoryId else row.categoryId,
         pending := t.pending)
  }

  /** The list, the keys seen so far, and the counts, as the loop carries them. */
  datatype State = State(rows: seq<Transaction>, seen: set<Key>, counts: Counts)

  function Step(s: State, t: Transaction): State {
    if KeyOf(t) in s.seen then s.(counts := s.counts.(duplicates := s.counts.duplicates + 1))
    else
      var i := Find(s.rows, t.plaidId);
      if i < |s.rows| then State(s.rows[i := Refreshed(s.rows[i], t)], s.seen, s.counts.(updated := s.counts.updated + 1))
      else State(s.rows + [t], s.seen + {KeyOf(t)}, s.counts.(added := s.counts.added + 1))
  }

  function Steps(s: State, ts: seq<Transaction>): State {
    if ts == [] then s else Step(Steps(s, ts[..|ts| - 1]), ts[|ts| - 1])
  }

  /** One merge: a fresh set of keys from the list, then every incoming transaction in order. */
  function Merged(rows: seq<Transaction>, incoming: seq<Transaction>): State {
    Steps(State(rows, KeysOf(rows), Counts(0, 0, 0)), incoming)
  }

  class TransactionList {
    var rows: seq<Transaction>

    constructor (rows: seq<Transaction>)
      ensures this.rows == rows
    {
      this.rows := rows;
    }

    /** The keys of the rows that have a plaid id, collected one by one. */
    method CollectKeys() returns (seen: set<Key>)
      ensures seen == KeysOf(rows)
    {
      seen := {};
      for i := 0 to |rows|
        invariant seen == KeysOf(rows[..i])
      {
        assert rows[..i + 1] == rows[..i] + [rows[i]];
        KeysOfSnoc(rows[..i], rows[i]);
        if rows[i].plaidId != "" {
          seen := seen + {KeyOf(rows[i])};
        }
      }
      assert rows[..|rows|] == rows;
    }

    /** The first row with the same non-empty plaid id. */
    method FindRow(plaidId: string) returns (i: nat)
      ensures i == Find(rows, plaidId)
    {
      i := 0;
      while i < |rows| && !(rows[i].plaidId == plaidId && rows[i].plaidId != "")
        invariant i <= |rows| && Find(rows, plaidId) == i + Find(rows[i..], plaidId)
      {
        i := i + 1;
      }
    }

    method MergeTransactions(incoming: seq<Transaction>) returns (result: Counts)
      modifies this
      ensures rows == Merged(old(rows), incoming).rows && result == Merged(old(rows), incoming).counts
    {
      result := Counts(0, 0, 0);
      var seen := CollectKeys();
      ghost var start := State(rows, seen, result);
      for n := 0 to |incoming|
        invariant State(rows, seen, result) == Steps(start, incoming[..n])
      {
        assert incoming[..n + 1][..n] == incoming[..n];
        var t := incoming[n];
        if KeyOf(t) in seen {
          result := result.(duplicates := result.duplicates + 1);
          continue;
        }
        var i := FindRow(t.plaidId);
        if i < |rows| {
          var row := rows[i];
          if row.notes == "" && t.notes != "" { row := row.(notes := t.notes); }
          if row.categoryId == "" && t.categoryId != "" { row := row.(categoryId := t.categoryId); }
          row := row.(pending := t.pending);
          rows := rows[i := row];
          result := result.(updated := result.updated + 1);
        } else {
          rows := rows + [t];
          seen := seen + {KeyOf(t)};
          result := result.(added := result.added + 1);
        }
      }
      assert incoming[..|incoming|] == incoming;
    }
  }

  lemma KeysOfSnoc(rows: seq<Transaction>, t: Transaction)
    ensures KeysOf(rows + [t]) == KeysOf(rows) + (if t.plaidId != "" then {KeyOf(t)} else {})
  {
    var all := rows + [t];
    forall k | k in KeysOf(rows) ensures k in KeysOf(all) {
      var i :| 0 <= i < |rows| && rows[i].plaidId != "" && KeyOf(rows[i]) == k;
      assert all[i] == rows[i];
    }
    if t.plaidId != "" { assert all[|rows|] == t; }
  }

  // ---------- what every merge keeps ----------

  /** The counts always add up to the batch size. */
  lemma {:induction false} CountsAddUp(s: State, ts: seq<Transaction>)
    ensures var c, d := s.counts, Steps(s, ts).counts;
            d.added + d.duplicates + d.updated == c.added + c.duplicates + c.updated + |ts|
    ensures |Steps(s, ts).rows| - |s.rows| == Steps(s, ts).counts.added - s.counts.added
  {
    if ts != [] { CountsAddUp(s, ts[..|ts| - 1]); }
  }

  /** All that a merge may do to a row that was there before it. */
  ghost predicate Preserved(before: Transaction, after: Transaction) {
    && after == before.(notes := after.notes, categoryId := after.categoryId, pending := after.pending)
    && (before.notes != "" ==> after.notes == before.notes)
    && (before.categoryId != "" ==> after.categoryId == before.categoryId)
  }

  /** Existing rows keep their places, their identity and everything the user filled in; new rows only come after them. */
  lemma {:induction false} ExistingRowsKept(s: State, ts: seq<Transaction>)
    ensures |s.rows| <= |Steps(s, ts).rows|
    ensures forall i :: 0 <= i < |s.rows| ==> Preserved(s.rows[i], Steps(s, ts).rows[i])
  {
    if ts != [] {
      var mid := Steps(s, ts[..|ts| - 1]);
      ExistingRowsKept(s, ts[..|ts| - 1]);
      forall i | 0 <= i < |s.rows| ensures Preserved(s.rows[i], Steps(s, ts).rows[i]) {
        assert Preserved(mid.rows[i], Steps(s, ts).rows[i]);
      }
    }
  }

  ghost predicate FromPlaid(ts: seq<Transaction>) {
    forall i :: 0 <= i < |ts| ==> ts[i].plaidId != ""
  }

  /** The keys of the transactions that have no plaid id. */
  function NoIdKeys(ts: seq<Transaction>): set<Key> {
    set i | 0 <= i < |ts| && ts[i].plaidId == "" :: KeyOf(ts[i])
  }

  ghost predicate WithoutIds(keys: set<Key>) {
    forall k :: k in keys ==> k.plaidId == ""
  }

  lemma NoIdKeysSnoc(ts: seq<Transaction>, t: Transaction)
    ensures NoIdKeys(ts + [t]) == NoIdKeys(ts) + (if t.plaidId == "" then {KeyOf(t)} else {})
  {
    var all := ts + [t];
    forall k | k in NoIdKeys(ts) ensures k in NoIdKeys(all) {
      var i :| 0 <= i < |ts| && ts[i].plaidId == "" && KeyOf(ts[i]) == k;
      assert all[i] == ts[i];
    }
    if t.plaidId == "" { assert all[|ts|] == t; }
  }

  /**
   * The loop's key set is the key set of the list it has built, and the keys without an id that it was
   * given or has met. The list forgets those when the merge ends.
   */
  lemma {:induction false} SeenIsKeysOf(rows: seq<Transaction>, extra: set<Key>, c: Counts, ts: seq<Transaction>)
    requires WithoutIds(extra)
    ensures var s := Steps(State(rows, KeysOf(rows) + extra, c), ts); s.seen == KeysOf(s.rows) + extra + NoIdKeys(ts)
  {
    if ts != [] {
      hide NoIdKeys;
      var init, t := ts[..|ts| - 1], ts[|ts| - 1];
      var s := Steps(State(rows, KeysOf(rows) + extra, c), init);
      SeenIsKeysOf(rows, extra, c, init);
      NoIdKeysSnoc(init, t);
      assert init + [t] == ts;
      StepKeys(s, extra + NoIdKeys(init), t);
    } else {
      assert NoIdKeys(ts) == {};
    }
  }

  lemma StepKeys(s: State, more: set<Key>, t: Transaction)
    requires s.seen == KeysOf(s.rows) + more
    ensures Step(s, t).seen == KeysOf(Step(s, t).rows) + more + (if t.plaidId == "" then {KeyOf(t)} else {})
  {
    var i := Find(s.rows, t.plaidId);
    if KeyOf(t) in s.seen {
    } else if i < |s.rows| {
      SameKeys(s.rows, s.rows[i := Refreshed(s.rows[i], t)]);
    } else {
      KeysOfSnoc(s.rows, t);
    }
  }

  /** Two lists with the same keys in the same places. */
  ghost predicate KeyEqual(p: seq<Transaction>, q: seq<Transaction>) {
    |p| == |q| && forall i :: 0 <= i < |p| ==> KeyOf(p[i]) == KeyOf(q[i])
  }

  lemma SameKeys(p: seq<Transaction>, q: seq<Transaction>)
    requires KeyEqual(p, q)
    ensures KeysOf(p) == KeysOf(q)
    ensures forall id :: Find(p, id) == Find(q, id)
  {
    KeysInclude(p, q);
    KeysInclude(q, p);
    forall id ensures Find(p, id) == Find(q, id) {
      FindAgrees(p, q, id);
    }
  }

  lemma KeysInclude(p: seq<Transaction>, q: seq<Transaction>)
    requires KeyEqual(p, q)
    ensures KeysOf(p) <= KeysOf(q)
  {
    forall k | k in KeysOf(p) ensures k in KeysOf(q) {
      var i :| 0 <= i < |p| && p[i].plaidId != "" && KeyOf(p[i]) == k;
      assert KeyOf(q[i]) == k && q[i].plaidId == KeyOf(q[i]).plaidId;
    }
  }

  lemma {:induction false} FindAgrees(p: seq<Transaction>, q: seq<Transaction>, id: string)
    requires KeyEqual(p, q)
    ensures Find(p, id) == Find(q, id)
  {
    if p != [] {
      assert KeyOf(p[0]) == KeyOf(q[0]);
      FindAgrees(p[1..], q[1..], id);
    }
  }

  // ---------- batches ----------

  /** One step on the list alone; with plaid ids this is all there is to a step. */
  function Row(rows: seq<Transaction>, t: Transaction): seq<Transaction> {
    if KeyOf(t) in KeysOf(rows) then rows
    else
      var i := Find(rows, t.plaidId);
      if i < |rows| then rows[i := Refreshed(rows[i], t)] else rows + [t]
  }

  function Rows(rows: seq<Transaction>, ts: seq<Transaction>): seq<Transaction> {
    if ts == [] then rows else Row(Rows(rows, ts[..|ts| - 1]), ts[|ts| - 1])
  }

  lemma {:induction false} StepsOnRows(rows: seq<Transaction>, c: Counts, ts: seq<Transaction>)
    requires FromPlaid(ts)
    ensures Steps(State(rows, KeysOf(rows), c), ts).rows == Rows(rows, ts)
  {
    if ts != [] {
      var init := ts[..|ts| - 1];
      StepsOnRows(rows, c, init);
      SeenIsKeysOf(rows, {}, c, init);
      assert KeysOf(rows) + {} == KeysOf(rows) && NoIdKeys(init) == {};
    }
  }

  lemma {:induction false} StepsInTwoParts(s: State, a: seq<Transaction>, b: seq<Transaction>)
    ensures Steps(s, a + b) == Steps(Steps(s, a), b)
  {
    hide Step;
    if b == [] {
      assert a + b == a;
    } else {
      StepsInTwoParts(s, a, b[..|b| - 1]);
      assert (a + b)[..|a + b| - 1] == a + b[..|b| - 1];
    }
  }

  function NoIdRows(rows: seq<Transaction>): nat {
    if rows == [] then 0 else NoIdRows(rows[..|rows| - 1]) + if rows[|rows| - 1].plaidId == "" then 1 else 0
  }

  lemma {:induction false} NoIdRowsOfEqual(p: seq<Transaction>, q: seq<Transaction>)
    requires KeyEqual(p, q)
    ensures NoIdRows(p) == NoIdRows(q)
  {
    if p != [] {
      assert KeyOf(p[|p| - 1]) == KeyOf(q[|q| - 1]);
      NoIdRowsOfEqual(p[..|p| - 1], q[..|q| - 1]);
    }
  }

  lemma StepNoIdRows(s: State, t: Transaction)
    ensures NoIdRows(Step(s, t).rows) == NoIdRows(s.rows) + if t.plaidId == "" && KeyOf(t) !in s.seen then 1 else 0
  {
    var i := Find(s.rows, t.plaidId);
    if KeyOf(t) in s.seen {
    } else if i < |s.rows| {
      NoIdRowsOfEqual(s.rows, s.rows[i := Refreshed(s.rows[i], t)]);
    } else {
      assert (s.rows + [t])[..|s.rows|] == s.rows;
    }
  }

  lemma NoIdKeysWithoutIds(ts: seq<Transaction>)
    ensures WithoutIds(NoIdKeys(ts))
    ensures ts == [] || FromPlaid(ts) ==> NoIdKeys(ts) == {}
  {}

  lemma StepAddsNewKey(s: State, extra: set<Key>, met: set<Key>, t: Transaction, met': set<Key>)
    requires s.seen == KeysOf(s.rows) + extra + met
    requires met' == met + (if t.plaidId == "" then {KeyOf(t)} else {})
    ensures NoIdRows(Step(s, t).rows) == NoIdRows(s.rows) + |met' - extra| - |met - extra|
  {
    hide Step, NoIdRows, KeysOf;
    StepNoIdRows(s, t);
    if t.plaidId == "" {
      KeysHaveIds(s.rows, KeyOf(t));
      OneMoreKey(met, extra, KeyOf(t));
    } else {
      assert met' == met;
    }
  }

  /** A merge adds one row for each key without an id that it has not met before. */
  lemma {:induction false} NoIdRowsAdded(rows: seq<Transaction>, extra: set<Key>, c: Counts, ts: seq<Transaction>)
    requires WithoutIds(extra)
    ensures NoIdRows(Steps(State(rows, KeysOf(rows) + extra, c), ts).rows) == NoIdRows(rows) + |NoIdKeys(ts) - extra|
  {
    hide Step, NoIdRows, NoIdKeys, KeysOf, WithoutIds;
    if ts == [] {
      NoIdKeysWithoutIds(ts);
    } else {
      var init, t := ts[..|ts| - 1], ts[|ts| - 1];
      NoIdRowsAdded(rows, extra, c, init);
      SeenIsKeysOf(rows, extra, c, init);
      NoIdKeysSnoc(init, t);
      assert init + [t] == ts;
      StepAddsNewKey(Steps(State(rows, KeysOf(rows) + extra, c), init), extra, NoIdKeys(init), t, NoIdKeys(ts));
    }
  }

  lemma OneMoreKey(keys: set<Key>, extra: set<Key>, k: Key)
    ensures |keys + {k} - extra| == |keys - extra| + if k in keys || k in extra then 0 else 1
  {
    if k in keys || k in extra {
      assert keys + {k} - extra == keys - extra;
    } else {
      assert keys + {k} - extra == (keys - extra) + {k};
    }
  }

  lemma KeysHaveIds(rows: seq<Transaction>, k: Key)
    requires k.plaidId == ""
    ensures k !in KeysOf(rows)
  {}

  /** Keys that the batch does not meet make no difference. */
  lemma {:induction false} ExtraKeysIdle(rows: seq<Transaction>, extra: set<Key>, c: Counts, ts: seq<Transaction>)
    requires WithoutIds(extra) && extra !! NoIdKeys(ts)
    ensures Steps(State(rows, KeysOf(rows) + extra, c), ts).rows == Steps(State(rows, KeysOf(rows), Counts(0, 0, 0)), ts).rows
  {
    if ts != [] {
      hide NoIdKeys, KeysOf;
      var init, t := ts[..|ts| - 1], ts[|ts| - 1];
      NoIdKeysSnoc(init, t);
      assert init + [t] == ts;
      ExtraKeysIdle(rows, extra, c, init);
      SeenIsKeysOf(rows, extra, c, init);
      SeenIsKeysOf(rows, {}, Counts(0, 0, 0), init);
      assert KeysOf(rows) + {} == KeysOf(rows);
      assert KeyOf(t) !in extra;
    }
  }

  lemma AfterOneMerge(rows: seq<Transaction>, ts: seq<Transaction>)
    ensures Merged(rows, ts).seen == KeysOf(Merged(rows, ts).rows) + NoIdKeys(ts)
    ensures NoIdRows(Merged(rows, ts).rows) == NoIdRows(rows) + |NoIdKeys(ts)|
  {
    hide Steps, NoIdRows, KeysOf, NoIdKeys;
    assert KeysOf(rows) + {} == KeysOf(rows) && NoIdKeys(ts) - {} == NoIdKeys(ts);
    SeenIsKeysOf(rows, {}, Counts(0, 0, 0), ts);
    NoIdRowsAdded(rows, {}, Counts(0, 0, 0), ts);
  }

  /**
   * A batch may be cut into two merges exactly where no transaction without a plaid id would be met on both
   * sides; in particular anywhere in a batch whose transactions all have one.
   */
  lemma MergeSplitsExactly(rows: seq<Transaction>, a: seq<Transaction>, b: seq<Transaction>)
    ensures Merged(rows, a + b).rows == Merged(Merged(rows, a).rows, b).rows <==> NoIdKeys(a) !! NoIdKeys(b)
    ensures FromPlaid(a) || FromPlaid(b) ==> NoIdKeys(a) !! NoIdKeys(b)
  {
    hide Steps, NoIdRows, KeysOf, NoIdKeys, FromPlaid, WithoutIds;
    var s, extra := Merged(rows, a), NoIdKeys(a);
    StepsInTwoParts(State(rows, KeysOf(rows), Counts(0, 0, 0)), a, b);
    AfterOneMerge(rows, a);
    AfterOneMerge(s.rows, b);
    NoIdKeysWithoutIds(a);
    NoIdKeysWithoutIds(b);
    assert s == State(s.rows, KeysOf(s.rows) + extra, s.counts);
    if extra !! NoIdKeys(b) {
      ExtraKeysIdle(s.rows, extra, s.counts, b);
    } else {
      NoIdRowsAdded(s.rows, extra, s.counts, b);
      ProperlySmaller(NoIdKeys(b), extra);
    }
  }

  lemma ProperlySmaller<T>(a: set<T>, b: set<T>)
    requires !(a !! b)
    ensures |a - b| < |a|
  {
    assert a == (a - b) + (a * b);
    assert a * b != {};
  }

  // ---------- idempotence ----------

  ghost predicate HasId(rows: seq<Transaction>, id: string) {
    Find(rows, id) < |rows|
  }

  lemma KeyImpliesId(rows: seq<Transaction>, t: Transaction)
    requires KeyOf(t) in KeysOf(rows)
    ensures HasId(rows, t.plaidId)
  {
    var i :| 0 <= i < |rows| && rows[i].plaidId != "" && KeyOf(rows[i]) == KeyOf(t);
    assert rows[i].plaidId == t.plaidId;
  }

  lemma {:induction false} FindSnoc(rows: seq<Transaction>, t: Transaction, id: string)
    ensures Find(rows + [t], id) ==
            if HasId(rows, id) then Find(rows, id) else if t.plaidId == id && id != "" then |rows| else |rows| + 1
  {
    if rows != [] {
      FindSnoc(rows[1..], t, id);
      assert (rows + [t])[1..] == rows[1..] + [t];
    } else {
      assert (rows + [t])[1..] == [];
    }
  }

  /** After a step the transaction's id is in the list, and ids stay in it. */
  lemma RowHasId(rows: seq<Transaction>, t: Transaction, id: string)
    requires t.plaidId != "" && (id == t.plaidId || HasId(rows, id))
    ensures HasId(Row(rows, t), id)
  {
    if KeyOf(t) in KeysOf(rows) {
      KeyImpliesId(rows, t);
    } else {
      var i := Find(rows, t.plaidId);
      if i < |rows| {
        SameKeys(rows, rows[i := Refreshed(rows[i], t)]);
      } else {
        FindSnoc(rows, t, id);
      }
    }
  }

  lemma {:induction false} RowsHaveIds(rows: seq<Transaction>, ts: seq<Transaction>)
    requires FromPlaid(ts)
    ensures forall i :: 0 <= i < |ts| ==> HasId(Rows(rows, ts), ts[i].plaidId)
  {
    if ts != [] {
      hide Row, HasId;
      var n := |ts| - 1;
      RowsHaveIds(rows, ts[..n]);
      forall i | 0 <= i < |ts| ensures HasId(Rows(rows, ts), ts[i].plaidId) {
        if i < n { assert ts[..n][i] == ts[i]; }
        RowHasId(Rows(rows, ts[..n]), ts[n], ts[i].plaidId);
      }
    }
  }

  /** Every transaction has its id in the list, so no step appends. */
  ghost predicate AllPresent(rows: seq<Transaction>, ts: seq<Transaction>) {
    forall i :: 0 <= i < |ts| ==> ts[i].plaidId != "" && HasId(rows, ts[i].plaidId)
  }

  lemma RowKeepsKeys(rows: seq<Transaction>, t: Transaction)
    requires HasId(rows, t.plaidId)
    ensures KeyEqual(rows, Row(rows, t))
  {}

  lemma {:induction false} RowsKeepKeys(rows: seq<Transaction>, ts: seq<Transaction>)
    requires AllPresent(rows, ts)
    ensures KeyEqual(rows, Rows(rows, ts))
  {
    if ts != [] {
      hide Row, HasId;
      var n := |ts| - 1;
      assert AllPresent(rows, ts[..n]);
      RowsKeepKeys(rows, ts[..n]);
      var mid := Rows(rows, ts[..n]);
      PresentInEqual(rows, mid, ts[n].plaidId);
      RowKeepsKeys(mid, ts[n]);
    }
  }

  lemma PresentInEqual(p: seq<Transaction>, q: seq<Transaction>, id: string)
    requires KeyEqual(p, q) && HasId(p, id)
    ensures HasId(q, id)
  {
    SameKeys(p, q);
  }

  /** A row appended for an id that none of the transactions has stays out of their way. */
  lemma {:induction false} RowsIgnoreNewRow(rows: seq<Transaction>, t: Transaction, ts: seq<Transaction>)
    requires AllPresent(rows, ts) && t.plaidId != "" && !HasId(rows, t.plaidId)
    ensures Rows(rows + [t], ts) == Rows(rows, ts) + [t]
  {
    if ts != [] {
      hide Row, HasId;
      var n := |ts| - 1;
      assert AllPresent(rows, ts[..n]);
      RowsIgnoreNewRow(rows, t, ts[..n]);
      RowsKeepKeys(rows, ts[..n]);
      var mid := Rows(rows, ts[..n]);
      PresentInEqual(rows, mid, ts[n].plaidId);
      RowIgnoresNewRow(mid, t, ts[n]);
    }
  }

  lemma RowIgnoresNewRow(rows: seq<Transaction>, t: Transaction, u: Transaction)
    requires HasId(rows, u.plaidId) && u.plaidId != t.plaidId && u.plaidId != ""
    ensures Row(rows + [t], u) == Row(rows, u) + [t]
  {
    KeysOfSnoc(rows, t);
    FindSnoc(rows, t, u.plaidId);
  }

  /** The lists agree everywhere but in row `i`, where `q` may hold a later state of the same transaction. */
  ghost predicate ApartAt(p: seq<Transaction>, q: seq<Transaction>, i: nat) {
    && |p| == |q| && i < |p|
    && (forall j :: 0 <= j < |p| && j != i ==> p[j] == q[j])
    && q[i] == p[i].(notes := q[i].notes, categoryId := q[i].categoryId, pending := q[i].pending)
  }

  /** A text field is filled at most once, in both lists alike. */
  ghost predicate Fills(p: string, q: string, p': string, q': string) {
    && (p != "" ==> p' == p)
    && (q != "" ==> q' == q)
    && (p' == "" ==> q' == q)
  }

  ghost predicate FillsAt(p: Transaction, q: Transaction, p': Transaction, q': Transaction) {
    && Fills(p.notes, q.notes, p'.notes, q'.notes)
    && Fills(p.categoryId, q.categoryId, p'.categoryId, q'.categoryId)
  }

  lemma RowLockstep(p: seq<Transaction>, q: seq<Transaction>, i: nat, t: Transaction)
    requires ApartAt(p, q, i) && t.plaidId != "" && HasId(p, t.plaidId)
    ensures ApartAt(Row(p, t), Row(q, t), i)
    ensures FillsAt(p[i], q[i], Row(p, t)[i], Row(q, t)[i])
  {
    SameKeys(p, q);
  }

  /** Two such lists stay so through a whole batch. */
  lemma {:induction false} RowsLockstep(p: seq<Transaction>, q: seq<Transaction>, i: nat, ts: seq<Transaction>)
    requires ApartAt(p, q, i) && AllPresent(p, ts)
    ensures ApartAt(Rows(p, ts), Rows(q, ts), i)
    ensures FillsAt(p[i], q[i], Rows(p, ts)[i], Rows(q, ts)[i])
  {
    if ts != [] {
      hide Row, HasId, ApartAt;
      var n := |ts| - 1;
      assert AllPresent(p, ts[..n]);
      RowsLockstep(p, q, i, ts[..n]);
      RowsKeepKeys(p, ts[..n]);
      var mid := Rows(p, ts[..n]);
      PresentInEqual(p, mid, ts[n].plaidId);
      RowLockstep(mid, Rows(q, ts[..n]), i, ts[n]);
    }
  }

  /** Merging a batch again changes nothing. */
  lemma {:induction false} RowsIdempotent(rows: seq<Transaction>, ts: seq<Transaction>)
    requires FromPlaid(ts)
    ensures Rows(Rows(rows, ts), ts) == Rows(rows, ts)
  {
    if ts != [] {
      hide Row, HasId;
      var n, t := |ts| - 1, ts[|ts| - 1];
      var once := Rows(rows, ts[..n]);
      RowsIdempotent(rows, ts[..n]);
      RowsHaveIds(rows, ts[..n]);
      assert AllPresent(once, ts[..n]);
      RowTwice(once, ts[..n], t);
    }
  }

  /** The step from a batch that is already idempotent to one more transaction. */
  lemma RowTwice(once: seq<Transaction>, init: seq<Transaction>, t: Transaction)
    requires AllPresent(once, init) && t.plaidId != "" && Rows(once, init) == once
    ensures Row(Rows(Row(once, t), init), t) == Row(once, t)
  {
    hide Rows;
    var i := Find(once, t.plaidId);
    if KeyOf(t) in KeysOf(once) {
    } else if i < |once| {
      var q := once[i := Refreshed(once[i], t)];
      RowsLockstep(once, q, i, init);
      var q' := Rows(q, init);
      SameKeys(once, q);
      SameKeys(once, q');
      assert Refreshed(q'[i], t) == q[i];
    } else {
      RowsIgnoreNewRow(once, t, init);
      KeysOfSnoc(once, t);
    }
  }

  /** Nothing is appended by a batch whose ids are all present. */
  lemma {:induction false} NothingAdded(rows: seq<Transaction>, ts: seq<Transaction>)
    requires AllPresent(rows, ts)
    ensures Merged(rows, ts).counts.added == 0
  {
    hide HasId, Steps, Rows;
    assert FromPlaid(ts);
    StepsOnRows(rows, Counts(0, 0, 0), ts);
    RowsKeepKeys(rows, ts);
    CountsAddUp(State(rows, KeysOf(rows), Counts(0, 0, 0)), ts);
  }

  /** Merging the same batch twice leaves the list as after once and reports nothing new. */
  lemma MergeIdempotent(rows: seq<Transaction>, ts: seq<Transaction>)
    requires FromPlaid(ts)
    ensures var once := Merged(rows, ts).rows;
            Merged(once, ts).rows == once && Merged(once, ts).counts.added == 0
  {
    hide HasId, Steps, Rows;
    StepsOnRows(rows, Counts(0, 0, 0), ts);
    StepsOnRows(Rows(rows, ts), Counts(0, 0, 0), ts);
    RowsIdempotent(rows, ts);
    RowsHaveIds(rows, ts);
    NothingAdded(Rows(rows, ts), ts);
  }

  /** A transaction without a plaid id is appended by every merge. */
  lemma {:induction false} NoIdIsAlwaysNew(s: State, ts: seq<Transaction>)
    requires (forall k :: k in s.seen ==> k.plaidId != "") && !FromPlaid(ts)
    ensures Steps(s, ts).counts.added > s.counts.added
  {
    var n, t := |ts| - 1, ts[|ts| - 1];
    FromPlaidParts(ts);
    CountsNeverDrop(s, ts[..n]);
    if FromPlaid(ts[..n]) {
      SeenFromPlaid(s, ts[..n]);
    } else {
      NoIdIsAlwaysNew(s, ts[..n]);
    }
  }

  lemma FromPlaidParts(ts: seq<Transaction>)
    requires ts != []
    ensures FromPlaid(ts) <==> FromPlaid(ts[..|ts| - 1]) && ts[|ts| - 1].plaidId != ""
  {
    var init := ts[..|ts| - 1];
    assert forall i :: 0 <= i < |init| ==> init[i] == ts[i];
    assert forall i :: 0 <= i < |init| ==> ts[i] == init[i];
  }

  lemma {:induction false} CountsNeverDrop(s: State, ts: seq<Transaction>)
    ensures Steps(s, ts).counts.added >= s.counts.added
  {
    if ts != [] { CountsNeverDrop(s, ts[..|ts| - 1]); }
  }

  lemma {:induction false} SeenFromPlaid(s: State, ts: seq<Transaction>)
    requires (forall k :: k in s.seen ==> k.plaidId != "") && FromPlaid(ts)
    ensures forall k :: k in Steps(s, ts).seen ==> k.plaidId != ""
  {
    if ts != [] { SeenFromPlaid(s, ts[..|ts| - 1]); }
  }

  /** Exactly the batches in which every transaction has a plaid id can be merged again without changing the list. */
  lemma SecondMergeAddsNothingExactly(rows: seq<Transaction>, ts: seq<Transaction>)
    ensures var once := Merged(rows, ts).rows;
            && (Merged(once, ts).counts.added == 0 <==> FromPlaid(ts))
            && (Merged(once, ts).rows == once <==> FromPlaid(ts))
  {
    hide Steps;
    if FromPlaid(ts) {
      MergeIdempotent(rows, ts);
    } else {
      var once := Merged(rows, ts).rows;
      var start := State(once, KeysOf(once), Counts(0, 0, 0));
      NoIdIsAlwaysNew(start, ts);
      CountsAddUp(start, ts);
    }
  }

  // ---------- one transaction at a time ----------

  lemma MergedOne(rows: seq<Transaction>, t: Transaction)
    ensures Merged(rows, [t]) == Step(State(rows, KeysOf(rows), Counts(0, 0, 0)), t)
  {
    hide Step;
    assert [t][..0] == [];
    assert Steps(State(rows, KeysOf(rows), Counts(0, 0, 0)), [t][..0]) == State(rows, KeysOf(rows), Counts(0, 0, 0));
  }

  /** A key is in the list exactly if some row with an id has all three parts of it. */
  lemma KeyIsThree(rows: seq<Transaction>, t: Transaction)
    ensures KeyOf(t) in KeysOf(rows) <==>
            exists j :: 0 <= j < |rows| && rows[j].plaidId != "" && rows[j].plaidId == t.plaidId
                        && rows[j].amountCents == t.amountCents && rows[j].date == t.date
  {
    forall j | 0 <= j < |rows|
      ensures KeyOf(rows[j]) == KeyOf(t) <==>
              rows[j].plaidId == t.plaidId && rows[j].amountCents == t.amountCents && rows[j].date == t.date
    {}
  }

  /** A transaction with the id, amount and date of a row is counted as a duplicate and changes nothing. */
  lemma SameAgainIsDuplicate(rows: seq<Transaction>, t: Transaction, j: nat)
    requires t.plaidId != "" && j < |rows|
    requires rows[j].plaidId == t.plaidId && rows[j].amountCents == t.amountCents && rows[j].date == t.date
    ensures Merged(rows, [t]).rows == rows && Merged(rows, [t]).counts == Counts(0, 1, 0)
  {
    MergedOne(rows, t);
    assert KeyOf(rows[j]) in KeysOf(rows);
  }

  /**
   * One with the id of a row but another amount or date than every row of that id updates the first of them: notes
   * and category if they are empty, the pending flag always, and nothing else.
   */
  lemma ChangedIsUpdate(rows: seq<Transaction>, t: Transaction, i: nat)
    requires t.plaidId != "" && i < |rows| && rows[i].plaidId == t.plaidId
    requires forall j :: 0 <= j < i ==> rows[j].plaidId != t.plaidId
    requires forall j :: 0 <= j < |rows| && rows[j].plaidId == t.plaidId ==> rows[j].amountCents != t.amountCents || rows[j].date != t.date
    ensures var m, r := Merged(rows, [t]), rows[i];
            && m.counts == Counts(0, 0, 1) && |m.rows| == |rows|
            && (forall j :: 0 <= j < |rows| && j != i ==> m.rows[j] == rows[j])
            && m.rows[i].notes == (if r.notes == "" then t.notes else r.notes)
            && m.rows[i].categoryId == (if r.categoryId == "" then t.categoryId else r.categoryId)
            && m.rows[i].pending == t.pending
            && m.rows[i] == r.(notes := m.rows[i].notes, categoryId := m.rows[i].categoryId, pending := m.rows[i].pending)
  {
    MergedOne(rows, t);
    KeyIsThree(rows, t);
    FindIsFirst(rows, t.plaidId, i);
  }

  lemma FindIsFirst(rows: seq<Transaction>, id: string, i: nat)
    requires id != "" && i < |rows| && rows[i].plaidId == id && forall j :: 0 <= j < i ==> rows[j].plaidId != id
    ensures Find(rows, id) == i
  {
    var f := Find(rows, id);
  }

  /** And one with a new id, or none, is appended as it is. */
  lemma NewIsAppended(rows: seq<Transaction>, t: Transaction)
    requires t.plaidId == "" || forall j :: 0 <= j < |rows| ==> rows[j].plaidId != t.plaidId
    ensures Merged(rows, [t]).rows == rows + [t] && Merged(rows, [t]).counts == Counts(1, 0, 0)
  {
    MergedOne(rows, t);
    KeyIsThree(rows, t);
  }
}
