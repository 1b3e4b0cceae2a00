/**
 * Applying Plaid's pages to the transactions table. Every row write commits by itself and the cursor is
 * stored last, so the process can die between any two writes and the page is then fetched and applied again.
 */
module PlaidSync {
  import opened Wrappers

  datatype PlaidTx = PlaidTx(id: string, amountCents: int, dateUnix: int, name: string, category: string)

  datatype Page = Page(added: seq<PlaidTx>, modified: seq<PlaidTx>, removed: seq<string>, nextCursor: string)

  /** A row of `transactions`; hand-entered rows have no plaid id. Its key in the table is `id`. */
  datatype Row = Row(accountId: string, plaidId: Option<string>, postedAt: int, amountCents: int,
                     description: Option<string>, category: Option<string>, createdAt: int)

  type Table = map<string, Row>

  const SYNCED_ID_LEN := 64
  const MANUAL_ID_LEN := 32

  function ZeroId(): (s: string)
    ensures |s| == SYNCED_ID_LEN
  {
    seq(SYNCED_ID_LEN, _ => '0')
  }

  /** The hex form of BLAKE2b over the plaid id: any function to 64 characters. */
  type SyncedId = s: string | |s| == SYNCED_ID_LEN witness ZeroId()
  type IdHash = string -> SyncedId

  function Nullable(s: string): Option<string> {
    if s == "" then None else Some(s)
  }

  // ---------- one row write ----------

  datatype Write = Upsert(tx: PlaidTx) | Update(tx: PlaidTx) | Delete(id: string) {
    function Id(): string {
      if Delete? then id else tx.id
    }
  }

  /** The four columns a sync overwrites. */
  function Refreshed(r: Row, tx: PlaidTx): Row {
    r.(amountCents := tx.amountCents, postedAt := tx.dateUnix, description := Nullable(tx.name), category := Nullable(tx.category))
  }

  function NewRow(account: string, tx: PlaidTx, now: int): Row {
    Row(account, Some(tx.id), tx.dateUnix, tx.amountCents, Nullable(tx.name), Nullable(tx.category), now)
  }

  /** `INSERT ... ON CONFLICT(id) DO UPDATE`. */
  function Upserted(hash: IdHash, account: string, t: Table, tx: PlaidTx, now: int): Table {
    var id := hash(tx.id);
    t[id := if id in t then Refreshed(t[id], tx) else NewRow(account, tx, now)]
  }

  /** `UPDATE ... WHERE plaid_transaction_id = ?`: every row with that plaid id. */
  function Updated(t: Table, tx: PlaidTx): Table {
    map k | k in t :: if t[k].plaidId == Some(tx.id) then Refreshed(t[k], tx) else t[k]
  }

  function Deleted(t: Table, plaidId: string): Table {
    map k | k in t && t[k].plaidId != Some(plaidId) :: t[k]
  }

  function Written(hash: IdHash, account: string, t: Table, w: Write, now: int): Table {
    match w
    case Upsert(tx) => Upserted(hash, account, t, tx, now)
    case Update(tx) => Updated(t, tx)
    case Delete(id) => Deleted(t, id)
  }

  function Upserts(txs: seq<PlaidTx>): seq<Write> {
    seq(|txs|, i requires 0 <= i < |txs| => Upsert(txs[i]))
  }

  function Updates(txs: seq<PlaidTx>): seq<Write> {
    seq(|txs|, i requires 0 <= i < |txs| => Update(txs[i]))
  }

  function Deletes(ids: seq<string>): seq<Write> {
    seq(|ids|, i requires 0 <= i < |ids| => Delete(ids[i]))
  }

  /** A page's writes in the order they are made. */
  function Writes(p: Page): seq<Write> {
    Upserts(p.added) + Updates(p.modified) + Deletes(p.removed)
  }

  /**
   * How one sync goes: the time of each write, how many writes are reached before the process dies (rows, then the
   * cursor), and which row writes fail by themselves. Those are logged, and the sync goes on.
   */
  datatype Attempt = Attempt(clock: nat -> int, budget: nat, lost: nat -> bool)

  /** The table after the writes `ws` of an attempt. */
  function AllWritten(hash: IdHash, account: string, t: Table, ws: seq<Write>, a: Attempt): Table {
    if ws == [] then t
    else
      var n, before := |ws| - 1, AllWritten(hash, account, t, ws[..|ws| - 1], a);
      if a.lost(n) then before else Written(hash, account, before, ws[n], a.clock(n))
  }

  lemma OneMore(hash: IdHash, account: string, t: Table, ws: seq<Write>, w: Write, a: Attempt)
    ensures var before := AllWritten(hash, account, t, ws, a);
            AllWritten(hash, account, t, ws + [w], a) ==
            if a.lost(|ws|) then before else Written(hash, account, before, w, a.clock(|ws|))
  {
    hide Written;
    assert (ws + [w])[..|ws|] == ws;
  }

  // ---------- the scheduler ----------

  class PlaidSyncScheduler {
    const hash: IdHash
    var transactions: Table
    var cursors: map<string, string>

    constructor (hash: IdHash)
      ensures this.hash == hash && transactions == map[] && cursors == map[]
    {
      this.hash, transactions, cursors := hash, map[], map[];
    }

    /** The stored cursor; an empty one counts as none. */
    ghost function StoredCursor(account: string): Option<string>
      reads this
    {
      if account in cursors && cursors[account] != "" then Some(cursors[account]) else None
    }

    /** Looks the cursor up. A lookup that fails, in whatever way, finds none. */
    method GetCursor(account: string, fails: bool) returns (cursor: Option<string>)
      ensures cursor == if fails then None else StoredCursor(account)
    {
      if fails { return None; }
      if account in cursors {
        var text := cursors[account];
        if text != "" { return Some(text); }
      }
      cursor := None;
    }

    method WriteRow(account: string, w: Write, now: int)
      modifies this`transactions
      ensures transactions == Written(hash, account, old(transactions), w, now)
    {
      match w
      case Upsert(tx) => transactions := Upserted(hash, account, transactions, tx, now);
      case Update(tx) => transactions := Updated(transactions, tx);
      case Delete(id) => transactions := Deleted(transactions, id);
    }

    /** One sync of an account. `response` is what the API returned, if anything. */
    method SyncAccount(account: string, response: Option<Page>, a: Attempt) returns (completed: bool)
      modifies this
      ensures response.None? ==> !completed && transactions == old(transactions) && cursors == old(cursors)
      ensures response.Some? ==>
                var ws := Writes(response.value);
                && completed == (a.budget > |ws|)
                && transactions == AllWritten(hash, account, old(transactions), if completed then ws else ws[..a.budget], a)
                && cursors == if completed && response.value.nextCursor != "" then old(cursors)[account := response.value.nextCursor]
                              else old(cursors)
    {
      if response.None? { return false; }
      hide AllWritten, Written, Upserts, Updates, Deletes, Writes;
      var page := response.value;
      ghost var t0, ws := transactions, Writes(page);
      EmptyWrites(hash, account, t0, a);
      Parts(page);
      var done := WriteSome(account, Upserts(page.added), a, 0, t0, ws);
      if done == a.budget { return false; }
      done := WriteSome(account, Updates(page.modified), a, done, t0, ws);
      if done == a.budget { return false; }
      done := WriteSome(account, Deletes(page.removed), a, done, t0, ws);
      if done == a.budget { return false; }
      assert ws[..done] == ws;
      if page.nextCursor != "" {
        cursors := cursors[account := page.nextCursor];
      }
      completed := true;
    }

    /** One of the three loops over a page, stopping when the budget is spent. `all` is the whole page's writes. */
    method WriteSome(account: string, ws: seq<Write>, a: Attempt, from: nat, ghost t0: Table, ghost all: seq<Write>)
      returns (done: nat)
      requires from <= a.budget && from + |ws| <= |all| && all[from..from + |ws|] == ws
      requires transactions == AllWritten(hash, account, t0, all[..from], a)
      modifies this`transactions
      ensures from <= done <= a.budget && done == if from + |ws| <= a.budget then from + |ws| else a.budget
      ensures transactions == AllWritten(hash, account, t0, all[..done], a)
    {
      hide AllWritten, Written;
      done := from;
      for i := 0 to |ws|
        invariant done == from + i <= a.budget
        invariant transactions == AllWritten(hash, account, t0, all[..done], a)
      {
        if done == a.budget { return; }
        OneMore(hash, account, t0, all[..done], ws[i], a);
        assert all[done] == ws[i];
        assert all[..done] + [ws[i]] == all[..done + 1];
        if !a.lost(done) { WriteRow(account, ws[i], a.clock(done)); }
        done := done + 1;
      }
    }
  }

  /** The three parts of a page's writes. */
  lemma Parts(p: Page)
    ensures var ws, a, m, r := Writes(p), Upserts(p.added), Updates(p.modified), Deletes(p.removed);
            && |ws| == |a| + |m| + |r|
            && ws[0..|a|] == a && ws[|a|..|a| + |m|] == m && ws[|a| + |m|..|a| + |m| + |r|] == r
  {}

  lemma EmptyWrites(hash: IdHash, account: string, t: Table, a: Attempt)
    ensures AllWritten(hash, account, t, [], a) == t
  {}

  // ---------- what the table says about an account's transactions ----------

  /** A synced transaction, without the time its row was created. */
  datatype Content = Content(accountId: string, postedAt: int, amountCents: int, description: Option<string>, category: Option<string>)

  /** Transactions by plaid id. */
  type Store = map<string, Content>

  function ContentOf(r: Row): Content {
    Content(r.accountId, r.postedAt, r.amountCents, r.description, r.category)
  }

  /** What the table holds for the plaid ids `ids`. */
  ghost function View(hash: IdHash, t: Table, ids: set<string>): Store {
    map x | x in ids && hash(x) in t :: ContentOf(t[hash(x)])
  }

  function Fields(account: string, tx: PlaidTx): Content {
    Content(account, tx.dateUnix, tx.amountCents, Nullable(tx.name), Nullable(tx.category))
  }

  /** The effect of one write on the store: the meaning of a delta, without rows or keys. */
  function Applied(account: string, s: Store, w: Write): Store {
    match w
    case Upsert(tx) => s[tx.id := Fields(if tx.id in s then s[tx.id].accountId else account, tx)]
    case Update(tx) => if tx.id in s then s[tx.id := Fields(s[tx.id].accountId, tx)] else s
    case Delete(id) => s - {id}
  }

  function AllApplied(account: string, s: Store, ws: seq<Write>): Store {
    if ws == [] then s else Applied(account, AllApplied(account, s, ws[..|ws| - 1]), ws[|ws| - 1])
  }

  function PagesApplied(account: string, pages: seq<Page>): Store {
    if pages == [] then map[] else AllApplied(account, PagesApplied(account, pages[..|pages| - 1]), Writes(pages[|pages| - 1]))
  }

  // ---------- replaying a page ----------

  /** Making a write before another one and again after it is the same as making it only after. */
  lemma Sandwich(account: string, s: Store, w: Write, h: Write)
    ensures Applied(account, Applied(account, Applied(account, s, w), h), w) == Applied(account, Applied(account, s, h), w)
  {
    assert w.Upsert? || w.Update? || w.Delete?;
  }

  /** A write that occurs in a sequence adds nothing when it is also made before the sequence. */
  lemma {:induction false} Absorbed(account: string, s: Store, ws: seq<Write>, w: Write)
    requires w in ws
    ensures AllApplied(account, Applied(account, s, w), ws) == AllApplied(account, s, ws)
  {
    hide Applied;
    var init, last := ws[..|ws| - 1], ws[|ws| - 1];
    if w in init {
      Absorbed(account, s, init, w);
    } else {
      AbsorbedLast(account, s, init, w);
    }
  }

  /** The case where the write is the last one of the sequence. */
  lemma {:induction false} AbsorbedLast(account: string, s: Store, init: seq<Write>, w: Write)
    ensures Applied(account, AllApplied(account, Applied(account, s, w), init), w) == Applied(account, AllApplied(account, s, init), w)
  {
    hide Applied;
    if init != [] {
      var front, h := init[..|init| - 1], init[|init| - 1];
      AbsorbedLast(account, s, front, w);
      var a, b := AllApplied(account, Applied(account, s, w), front), AllApplied(account, s, front);
      Sandwich(account, a, w, h);
      Sandwich(account, b, w, h);
    } else {
      Idempotent(account, s, w);
    }
  }

  lemma Idempotent(account: string, s: Store, w: Write)
    ensures Applied(account, Applied(account, s, w), w) == Applied(account, s, w)
  {}

  lemma {:induction false} AppliedInTwoParts(account: string, s: Store, a: seq<Write>, b: seq<Write>)
    ensures AllApplied(account, s, a + b) == AllApplied(account, AllApplied(account, s, a), b)
  {
    hide Applied;
    if b == [] {
      assert a + b == a;
    } else {
      AppliedInTwoParts(account, s, a, b[..|b| - 1]);
      assert (a + b)[..|a + b| - 1] == a + b[..|b| - 1];
    }
  }

  /** Any writes of a page, in any order and any number, followed by the whole page are the same as the page once. */
  lemma {:induction false} AnyPartThenWhole(account: string, s: Store, done: seq<Write>, ws: seq<Write>)
    requires forall w :: w in done ==> w in ws
    ensures AllApplied(account, AllApplied(account, s, done), ws) == AllApplied(account, s, ws)
  {
    hide Applied;
    if done != [] {
      var init, last := done[..|done| - 1], done[|done| - 1];
      AnyPartThenWhole(account, s, init, ws);
      Absorbed(account, AllApplied(account, s, init), ws, last);
    }
  }

  // ---------- rows and keys ----------

  /** Synced rows sit under the hash of their plaid id, hand-entered rows under a shorter id. */
  ghost predicate Keyed(hash: IdHash, t: Table, ids: set<string>) {
    forall k :: k in t ==>
      match t[k].plaidId
      case None => |k| == MANUAL_ID_LEN
      case Some(x) => x in ids && k == hash(x)
  }

  ghost predicate NoCollision(hash: IdHash, ids: set<string>) {
    forall a, b :: a in ids && b in ids && hash(a) == hash(b) ==> a == b
  }

  /** Outside the key `id` the two tables are the same. */
  ghost predicate SameExcept(t: Table, t': Table, id: string) {
    forall k :: k != id ==> (k in t <==> k in t') && (k in t && k in t' ==> t[k] == t'[k])
  }

  /** In a keyed table the row of a plaid id is found by its hash, and only there. */
  lemma OneRowPerPlaidId(hash: IdHash, t: Table, ids: set<string>, x: string, k: string)
    requires Keyed(hash, t, ids) && NoCollision(hash, ids) && x in ids && k in t
    ensures t[k].plaidId == Some(x) <==> k == hash(x)
  {
    if k == hash(x) {
      assert t[k].plaidId.Some?;
    }
  }

  /** In a keyed table each write changes at most the row under the hash of its plaid id. */
  lemma WriteIsLocal(hash: IdHash, account: string, t: Table, w: Write, now: int, ids: set<string>)
    requires Keyed(hash, t, ids) && NoCollision(hash, ids) && w.Id() in ids
    ensures var k := hash(w.Id());
            Written(hash, account, t, w, now) ==
            match w
            case Upsert(tx) => t[k := if k in t then Refreshed(t[k], tx) else NewRow(account, tx, now)]
            case Update(tx) => if k in t then t[k := Refreshed(t[k], tx)] else t
            case Delete(_) => t - {k}
  {
    forall k | k in t ensures t[k].plaidId == Some(w.Id()) <==> k == hash(w.Id()) {
      OneRowPerPlaidId(hash, t, ids, w.Id(), k);
    }
  }

  /** Changing the row of one plaid id changes the view at that id. */
  lemma PutRow(hash: IdHash, t: Table, ids: set<string>, log: set<string>, x: string, r: Row)
    requires Keyed(hash, t, ids) && NoCollision(hash, ids) && x in log && log <= ids && r.plaidId == Some(x)
    ensures Keyed(hash, t[hash(x) := r], ids) && View(hash, t[hash(x) := r], log) == View(hash, t, log)[x := ContentOf(r)]
  {
    hide NoCollision, ContentOf;
    OthersApart(hash, ids, log, x);
  }

  lemma DropRow(hash: IdHash, t: Table, ids: set<string>, log: set<string>, x: string)
    requires Keyed(hash, t, ids) && NoCollision(hash, ids) && x in log && log <= ids
    ensures Keyed(hash, t - {hash(x)}, ids) && View(hash, t - {hash(x)}, log) == View(hash, t, log) - {x}
  {
    hide Keyed, NoCollision, ContentOf;
    KeyedSubset(hash, t, ids, hash(x));
    OthersApart(hash, ids, log, x);
    var t', s, s' := t - {hash(x)}, View(hash, t, log), View(hash, t - {hash(x)}, log);
    forall y | y in log ensures (y in s' <==> y in s && y != x) && (y in s' ==> s'[y] == s[y]) {
      assert hash(y) in t' <==> hash(y) in t && hash(y) != hash(x);
    }
  }

  lemma OthersApart(hash: IdHash, ids: set<string>, log: set<string>, x: string)
    requires NoCollision(hash, ids) && x in ids && log <= ids
    ensures forall y :: y in log && hash(y) == hash(x) ==> y == x
  {}

  lemma KeyedSubset(hash: IdHash, t: Table, ids: set<string>, k: string)
    requires Keyed(hash, t, ids)
    ensures Keyed(hash, t - {k}, ids)
  {}

  /** The part of a store about the plaid ids `keep`. */
  ghost function Restrict(s: Store, keep: set<string>): Store {
    map x | x in s && x in keep :: s[x]
  }

  /** What a write means to that part: nothing, if it is about another id. */
  lemma AppliedRestricted(account: string, s: Store, w: Write, keep: set<string>)
    ensures Restrict(Applied(account, s, w), keep) ==
            if w.Id() in keep then Applied(account, Restrict(s, keep), w) else Restrict(s, keep)
  {}

  /** A change of one row does not show at other plaid ids. */
  lemma OtherView(hash: IdHash, t: Table, t': Table, ids: set<string>, keep: set<string>, x: string)
    requires NoCollision(hash, ids) && keep <= ids && x in ids && x !in keep && SameExcept(t, t', hash(x))
    ensures View(hash, t', keep) == View(hash, t, keep)
  {}

  /** One write keeps the keys, touches one row only, and does to the store what the delta means. */
  lemma WriteRefines(hash: IdHash, account: string, t: Table, w: Write, now: int, ids: set<string>, log: set<string>)
    requires Keyed(hash, t, ids) && NoCollision(hash, ids) && w.Id() in log && log <= ids
    ensures var t' := Written(hash, account, t, w, now);
            Keyed(hash, t', ids) && SameExcept(t, t', hash(w.Id())) && View(hash, t', log) == Applied(account, View(hash, t, log), w)
  {
    hide Keyed, NoCollision, Written;
    var x, k := w.Id(), hash(w.Id());
    WriteIsLocal(hash, account, t, w, now, ids);
    if k in t { OneRowPerPlaidId(hash, t, ids, x, k); }
    match w
    case Upsert(tx) =>
      PutRow(hash, t, ids, log, x, if k in t then Refreshed(t[k], tx) else NewRow(account, tx, now));
    case Update(tx) =>
      if k in t { PutRow(hash, t, ids, log, x, Refreshed(t[k], tx)); }
    case Delete(_) =>
      DropRow(hash, t, ids, log, x);
  }

  /** The same for the plaid ids `keep` only: for them the table shows the store `s` before and what the delta makes of it after. */
  lemma WriteShows(hash: IdHash, account: string, t: Table, w: Write, now: int, ids: set<string>, keep: set<string>, s: Store)
    requires Keyed(hash, t, ids) && NoCollision(hash, ids) && w.Id() in ids && keep <= ids
    requires View(hash, t, keep) == Restrict(s, keep)
    ensures var t' := Written(hash, account, t, w, now);
            && Keyed(hash, t', ids) && SameExcept(t, t', hash(w.Id()))
            && View(hash, t', keep) == Restrict(Applied(account, s, w), keep)
  {
    hide Keyed, NoCollision, Written, View, Restrict, Applied, SameExcept;
    AppliedRestricted(account, s, w, keep);
    if w.Id() in keep {
      WriteRefines(hash, account, t, w, now, ids, keep);
    } else {
      WriteRefines(hash, account, t, w, now, ids, {w.Id()});
      OtherView(hash, t, Written(hash, account, t, w, now), ids, keep, w.Id());
    }
  }

  /** The writes of an attempt that did not fail. */
  function Survivors(ws: seq<Write>, lost: nat -> bool): seq<Write> {
    if ws == [] then []
    else
      var n := |ws| - 1;
      Survivors(ws[..n], lost) + if lost(n) then [] else [ws[n]]
  }

  lemma {:induction false} SurvivorsAreThere(ws: seq<Write>, lost: nat -> bool)
    ensures forall w :: w in Survivors(ws, lost) ==> w in ws
  {
    if ws != [] { SurvivorsAreThere(ws[..|ws| - 1], lost); }
  }

  /** No write about one of these ids was lost. */
  ghost predicate SparesAll(ws: seq<Write>, lost: nat -> bool, keep: set<string>) {
    forall i :: 0 <= i < |ws| && lost(i) ==> ws[i].Id() !in keep
  }

  lemma RestrictedAlike(account: string, s: Store, s': Store, w: Write, keep: set<string>)
    requires Restrict(s, keep) == Restrict(s', keep)
    ensures Restrict(Applied(account, s, w), keep) == Restrict(Applied(account, s', w), keep)
    ensures w.Id() !in keep ==> Restrict(Applied(account, s, w), keep) == Restrict(s', keep)
  {
    AppliedRestricted(account, s, w, keep);
    AppliedRestricted(account, s', w, keep);
  }

  /** Losing writes about other ids does not show at these. */
  lemma {:induction false} LossElsewhere(account: string, s: Store, ws: seq<Write>, lost: nat -> bool, keep: set<string>)
    requires SparesAll(ws, lost, keep)
    ensures Restrict(AllApplied(account, s, Survivors(ws, lost)), keep) == Restrict(AllApplied(account, s, ws), keep)
  {
    if ws != [] {
      hide Applied, Restrict;
      var n := |ws| - 1;
      var few := Survivors(ws[..n], lost);
      LossElsewhere(account, s, ws[..n], lost, keep);
      RestrictedAlike(account, AllApplied(account, s, ws[..n]), AllApplied(account, s, few), ws[n], keep);
      if lost(n) {
        assert few + [] == few;
      } else {
        assert (few + [ws[n]])[..|few|] == few;
      }
    }
  }

  /** What the table shows after an attempt is what its surviving writes mean. */
  lemma {:induction false} WritesShow(hash: IdHash, account: string, t: Table, ws: seq<Write>, a: Attempt,
                                      ids: set<string>, keep: set<string>, s: Store)
    requires Keyed(hash, t, ids) && NoCollision(hash, ids) && keep <= ids
    requires (forall w :: w in ws ==> w.Id() in ids) && View(hash, t, keep) == Restrict(s, keep)
    ensures var t' := AllWritten(hash, account, t, ws, a);
            Keyed(hash, t', ids) && View(hash, t', keep) == Restrict(AllApplied(account, s, Survivors(ws, a.lost)), keep)
  {
    hide Keyed, NoCollision, View, Applied, Written, Restrict;
    if ws != [] {
      var n := |ws| - 1;
      var few := Survivors(ws[..n], a.lost);
      WritesShow(hash, account, t, ws[..n], a, ids, keep, s);
      if a.lost(n) {
        assert few + [] == few;
      } else {
        assert (few + [ws[n]])[..|few|] == few;
        WriteShows(hash, account, AllWritten(hash, account, t, ws[..n], a), ws[n], a.clock(n), ids, keep, AllApplied(account, s, few));
      }
    }
  }

  /** A sync leaves every row alone that its page does not name. */
  lemma {:induction false} OtherRowsUntouched(hash: IdHash, account: string, t: Table, ws: seq<Write>, a: Attempt,
                                              ids: set<string>, k: string)
    requires Keyed(hash, t, ids) && NoCollision(hash, ids)
    requires forall w :: w in ws ==> w.Id() in ids && hash(w.Id()) != k
    ensures var t' := AllWritten(hash, account, t, ws, a);
            Keyed(hash, t', ids) && (k in t <==> k in t') && (k in t ==> t'[k] == t[k])
  {
    hide Keyed, NoCollision, View, Applied, Written;
    if ws != [] {
      var n := |ws| - 1;
      OtherRowsUntouched(hash, account, t, ws[..n], a, ids, k);
      WriteRefines(hash, account, AllWritten(hash, account, t, ws[..n], a), ws[n], a.clock(n), ids, {ws[n].Id()});
    }
  }

  /** In particular every hand-entered row, whose key is shorter than those of synced rows. */
  lemma ManualRowsUntouched(hash: IdHash, account: string, t: Table, ws: seq<Write>, a: Attempt, ids: set<string>, k: string)
    requires Keyed(hash, t, ids) && NoCollision(hash, ids)
    requires (forall w :: w in ws ==> w.Id() in ids) && k in t && t[k].plaidId == None
    ensures k in AllWritten(hash, account, t, ws, a) && AllWritten(hash, account, t, ws, a)[k] == t[k]
  {
    assert |k| == MANUAL_ID_LEN;
    OtherRowsUntouched(hash, account, t, ws, a, ids, k);
  }

  /** A row's creation time is that of the write that made it, and no later write changes it. */
  lemma CreationTimeIsKept(hash: IdHash, account: string, t: Table, w: Write, now: int, k: string)
    requires k in Written(hash, account, t, w, now)
    ensures Written(hash, account, t, w, now)[k].createdAt == if k in t then t[k].createdAt else now
  {}

  // ---------- a write that is lost ----------

  /** Among the writes of a page, number `i` is the only one about its id. */
  ghost predicate OnlyOne(ws: seq<Write>, i: nat) {
    i < |ws| && forall j :: 0 <= j < |ws| && j != i ==> ws[j].Id() != ws[i].Id()
  }

  /** Writes about other ids do not show at these. */
  lemma {:induction false} UnrelatedWrites(account: string, s: Store, ws: seq<Write>, keep: set<string>)
    requires forall w :: w in ws ==> w.Id() !in keep
    ensures Restrict(AllApplied(account, s, ws), keep) == Restrict(s, keep)
  {
    if ws != [] {
      hide Applied, Restrict;
      var n := |ws| - 1;
      assert ws[n] in ws;
      UnrelatedWrites(account, s, ws[..n], keep);
      RestrictedAlike(account, AllApplied(account, s, ws[..n]), s, ws[n], keep);
    }
  }

  /** At an id that a page names once, what the surviving writes mean is that one write, if it survives. */
  lemma {:induction false} OneWriteDecides(account: string, s: Store, ws: seq<Write>, lost: nat -> bool, i: nat)
    requires OnlyOne(ws, i)
    ensures var x := {ws[i].Id()};
            Restrict(AllApplied(account, s, Survivors(ws, lost)), x) == Restrict(if lost(i) then s else Applied(account, s, ws[i]), x)
  {
    hide Applied, Restrict;
    var n, x := |ws| - 1, {ws[i].Id()};
    var few := Survivors(ws[..n], lost);
    if i < n {
      assert ws[..n][i] == ws[i];
      OneWriteDecides(account, s, ws[..n], lost, i);
    } else {
      SurvivorsAreThere(ws[..n], lost);
      UnrelatedWrites(account, s, few, x);
    }
    RestrictedAlike(account, AllApplied(account, s, few), if i < n && !lost(i) then Applied(account, s, ws[i]) else s, ws[n], x);
    if lost(n) {
      assert few + [] == few;
    } else {
      assert (few + [ws[n]])[..|few|] == few;
    }
  }

  lemma {:induction false} AllSurvive(ws: seq<Write>)
    ensures Survivors(ws, _ => false) == ws
  {
    if ws != [] { AllSurvive(ws[..|ws| - 1]); }
  }

  /**
   * When a sync reaches the end of a page, the table is right about an id that the page names once, whichever kind of
   * write that is, exactly if the write did not fail or would have changed nothing. The cursor moves on either way.
   */
  lemma RightExactlyUnlessLost(hash: IdHash, account: string, t: Table, ws: seq<Write>, a: Attempt, ids: set<string>, i: nat, s: Store)
    requires Keyed(hash, t, ids) && NoCollision(hash, ids) && forall w :: w in ws ==> w.Id() in ids
    requires OnlyOne(ws, i) && View(hash, t, {ws[i].Id()}) == Restrict(s, {ws[i].Id()})
    ensures var x := {ws[i].Id()};
            View(hash, AllWritten(hash, account, t, ws, a), x) == Restrict(AllApplied(account, s, ws), x) <==>
            !a.lost(i) || Restrict(Applied(account, s, ws[i]), x) == Restrict(s, x)
  {
    hide Keyed, NoCollision, View, AllWritten, AllApplied, Applied, Survivors, Restrict;
    WritesShow(hash, account, t, ws, a, ids, {ws[i].Id()}, s);
    OneWriteDecides(account, s, ws, a.lost, i);
    OneWriteDecides(account, s, ws, _ => false, i);
    AllSurvive(ws);
  }

  /** In particular a new transaction that its page names once is stored exactly if its write did not fail. */
  lemma StoredExactlyUnlessLost(hash: IdHash, account: string, t: Table, ws: seq<Write>, a: Attempt, ids: set<string>, i: nat)
    requires Keyed(hash, t, ids) && NoCollision(hash, ids) && forall w :: w in ws ==> w.Id() in ids
    requires OnlyOne(ws, i) && ws[i].Upsert? && hash(ws[i].Id()) !in t
    ensures hash(ws[i].Id()) in AllWritten(hash, account, t, ws, a) <==> !a.lost(i)
  {
    hide Keyed, NoCollision, AllWritten, AllApplied, Survivors;
    var x := ws[i].Id();
    var t' := AllWritten(hash, account, t, ws, a);
    assert View(hash, t, {x}) == Restrict(map[], {x});
    WritesShow(hash, account, t, ws, a, ids, {x}, map[]);
    OneWriteDecides(account, map[], ws, a.lost, i);
    assert hash(x) in t' <==> x in View(hash, t', {x});
    assert x in Restrict(Applied(account, map[], ws[i]), {x}) && x !in Restrict(map[], {x});
  }
}
