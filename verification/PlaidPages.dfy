/** What a page of changes does to the table, told from its own three lists. */
module PlaidPages {
  import opened PlaidRuns
  import opened PlaidSync
  import opened Wrappers

  // ---------- the lists and the writes ----------

  /** A transaction of `added` whose id the page does not mention again. */
  ghost predicate LastAdded(page: Page, i: nat) {
    && i < |page.added|
    && (forall j :: i < j < |page.added| ==> page.added[j].id != page.added[i].id)
    && (forall j :: 0 <= j < |page.modified| ==> page.modified[j].id != page.added[i].id)
    && page.added[i].id !in page.removed
  }

  ghost predicate LastModified(page: Page, i: nat) {
    && i < |page.modified|
    && (forall j :: i < j < |page.modified| ==> page.modified[j].id != page.modified[i].id)
    && page.modified[i].id !in page.removed
  }

  ghost predicate Mentions(page: Page, x: string) {
    (exists i :: 0 <= i < |page.added| && page.added[i].id == x)
    || (exists i :: 0 <= i < |page.modified| && page.modified[i].id == x) || x in page.removed
  }

  /** Which write each position of the sequence of a page's writes is. */
  lemma WriteAt(page: Page, n: nat)
    requires n < |Writes(page)|
    ensures var a, m := |page.added|, |page.modified|;
            && |Writes(page)| == a + m + |page.removed|
            && Writes(page)[n] == if n < a then Upsert(page.added[n]) else if n < a + m then Update(page.modified[n - a]) else Delete(page.removed[n - a - m])
  {}

  lemma WritesCount(page: Page)
    ensures |Writes(page)| == |page.added| + |page.modified| + |page.removed|
  {}

  /** The last write about an id decides what the writes mean for it. */
  lemma LastWriteDecides(account: string, s: Store, ws: seq<Write>, n: nat)
    requires n < |ws| && forall j :: n < j < |ws| ==> ws[j].Id() != ws[n].Id()
    ensures var x := {ws[n].Id()};
            Restrict(AllApplied(account, s, ws), x) == Restrict(Applied(account, AllApplied(account, s, ws[..n]), ws[n]), x)
  {
    hide Applied, Restrict, AllApplied;
    var first, rest := ws[..n + 1], ws[n + 1..];
    assert ws == first + rest && first[..n] == ws[..n] && first[n] == ws[n];
    AppliedInTwoParts(account, s, first, rest);
    assert forall w :: w in rest ==> w.Id() != ws[n].Id();
    UnrelatedWrites(account, AllApplied(account, s, first), rest, {ws[n].Id()});
    OneMoreApplied(account, s, ws, n);
  }

  lemma OneMoreApplied(account: string, s: Store, ws: seq<Write>, n: nat)
    requires n < |ws|
    ensures AllApplied(account, s, ws[..n + 1]) == Applied(account, AllApplied(account, s, ws[..n]), ws[n])
  {
    assert ws[..n + 1][..n] == ws[..n];
  }

  /** An id that is there, or is added, stays until something is deleted. */
  lemma {:induction false} StaysUntilDeleted(account: string, s: Store, ws: seq<Write>, x: string)
    requires (forall w :: w in ws ==> !w.Delete?) && (x in s || exists w :: w in ws && w.Upsert? && w.Id() == x)
    ensures x in AllApplied(account, s, ws) && (x in s ==> AllApplied(account, s, ws)[x].accountId == s[x].accountId)
  {
    if ws != [] {
      var n := |ws| - 1;
      assert ws[n] in ws;
      if x in s || exists w :: w in ws[..n] && w.Upsert? && w.Id() == x {
        StaysUntilDeleted(account, s, ws[..n], x);
      } else {
        var w :| w in ws && w.Upsert? && w.Id() == x;
        assert w == ws[n];
      }
    }
  }

  lemma {:induction false} AccountFromUpserts(account: string, s: Store, ws: seq<Write>, x: string)
    requires (forall w :: w in ws ==> w.Upsert?) && x !in s
    ensures x in AllApplied(account, s, ws) ==> AllApplied(account, s, ws)[x].accountId == account
  {
    if ws != [] {
      assert ws[|ws| - 1] in ws;
      AccountFromUpserts(account, s, ws[..|ws| - 1], x);
    }
  }

  /** What a stored transaction says, field by field. */
  ghost predicate SaysOf(c: Content, tx: PlaidTx) {
    && c.amountCents == tx.amountCents && c.postedAt == tx.dateUnix
    && c.description == (if tx.name == "" then None else Some(tx.name))
    && c.category == (if tx.category == "" then None else Some(tx.category))
  }

  // ---------- what a page means ----------

  /** An added transaction that is not mentioned again is stored as it was sent, under the account it had or else this one. */
  lemma AddedIsStored(account: string, s: Store, page: Page, i: nat)
    requires LastAdded(page, i)
    ensures var r, tx := AllApplied(account, s, Writes(page)), page.added[i];
            tx.id in r && SaysOf(r[tx.id], tx) && r[tx.id].accountId == if tx.id in s then s[tx.id].accountId else account
  {
    var ws, tx := Writes(page), page.added[i];
    forall j | 0 <= j < |ws| ensures ws[j] == (if j < |page.added| then Upsert(page.added[j]) else ws[j]) && (j > i ==> ws[j].Id() != tx.id) {
      WriteAt(page, j);
    }
    hide Writes, AllApplied;
    WritesCount(page);
    LastWriteDecides(account, s, ws, i);
    var before := AllApplied(account, s, ws[..i]);
    forall w | w in ws[..i] ensures w.Upsert? { var j :| 0 <= j < i && ws[..i][j] == w; }
    if tx.id in s {
      StaysUntilDeleted(account, s, ws[..i], tx.id);
    } else {
      AccountFromUpserts(account, s, ws[..i], tx.id);
    }
    InRestricted(AllApplied(account, s, ws), Applied(account, before, ws[i]), tx.id);
  }

  lemma InRestricted(r: Store, q: Store, x: string)
    requires Restrict(r, {x}) == Restrict(q, {x})
    ensures (x in r <==> x in q) && (x in r ==> r[x] == q[x])
  {
    assert x in Restrict(r, {x}) <==> x in r;
    assert x in Restrict(q, {x}) <==> x in q;
    if x in r { assert Restrict(r, {x})[x] == r[x] && Restrict(q, {x})[x] == q[x]; }
  }

  lemma AroundModified(page: Page, i: nat, j: nat)
    requires LastModified(page, i) && j < |Writes(page)|
    ensures var w, n := Writes(page)[j], |page.added| + i;
            (j < |page.added| ==> w == Upsert(page.added[j])) && (j <= n ==> !w.Delete?) && (j > n ==> w.Id() != page.modified[i].id)
  {
    WriteAt(page, j);
    hide Writes;
  }

  /** A modified transaction that is not mentioned again has its new fields, if it was there or came with the page. */
  lemma ModifiedIsStored(account: string, s: Store, page: Page, i: nat)
    requires LastModified(page, i)
    requires page.modified[i].id in s || exists j :: 0 <= j < |page.added| && page.added[j].id == page.modified[i].id
    ensures var r, tx := AllApplied(account, s, Writes(page)), page.modified[i];
            tx.id in r && SaysOf(r[tx.id], tx) && (tx.id in s ==> r[tx.id].accountId == s[tx.id].accountId)
  {
    var ws, tx, n := Writes(page), page.modified[i], |page.added| + i;
    WritesCount(page);
    forall j | 0 <= j < |ws| ensures (j < |page.added| ==> ws[j] == Upsert(page.added[j])) && (j <= n ==> !ws[j].Delete?) && (j > n ==> ws[j].Id() != tx.id) {
      AroundModified(page, i, j);
    }
    WriteAt(page, n);
    hide Writes, AllApplied, LastModified;
    LastWriteDecides(account, s, ws, n);
    forall w | w in ws[..n] ensures !w.Delete? { var j :| 0 <= j < n && ws[..n][j] == w; }
    if tx.id !in s {
      var j :| 0 <= j < |page.added| && page.added[j].id == tx.id;
      assert ws[..n][j] == Upsert(page.added[j]);
    }
    StaysUntilDeleted(account, s, ws[..n], tx.id);
    InRestricted(AllApplied(account, s, ws), Applied(account, AllApplied(account, s, ws[..n]), ws[n]), tx.id);
  }

  /** A removed transaction is gone, whatever else the page says about it. */
  lemma RemovedIsGone(account: string, s: Store, page: Page, x: string)
    requires x in page.removed
    ensures x !in AllApplied(account, s, Writes(page))
  {
    var k := LastIndex(page.removed, x);
    var ws, n := Writes(page), |page.added| + |page.modified| + k;
    WritesCount(page);
    forall j | n <= j < |ws| ensures ws[j] == Delete(page.removed[j - n + k]) { WriteAt(page, j); }
    hide Writes, AllApplied;
    LastWriteDecides(account, s, ws, n);
    InRestricted(AllApplied(account, s, ws), Applied(account, AllApplied(account, s, ws[..n]), ws[n]), x);
  }

  lemma {:induction false} LastIndex(xs: seq<string>, x: string) returns (k: nat)
    requires x in xs
    ensures k < |xs| && xs[k] == x && forall j :: k < j < |xs| ==> xs[j] != x
  {
    if xs[|xs| - 1] == x {
      k := |xs| - 1;
    } else {
      k := LastIndex(xs[..|xs| - 1], x);
    }
  }

  /** And what the page does not mention stays as it was. */
  lemma UnmentionedIsKept(account: string, s: Store, page: Page, x: string)
    requires !Mentions(page, x)
    ensures var r := AllApplied(account, s, Writes(page)); (x in r <==> x in s) && (x in s ==> r[x] == s[x])
  {
    var ws := Writes(page);
    WritesCount(page);
    forall w | w in ws ensures w.Id() !in {x} {
      var j :| 0 <= j < |ws| && ws[j] == w;
      WriteAt(page, j);
    }
    UnrelatedWrites(account, s, ws, {x});
    InRestricted(AllApplied(account, s, ws), s, x);
  }

  // ---------- what a sync that completes leaves behind ----------

  /** The table has a row of this transaction with these fields. */
  ghost predicate HasRow(hash: IdHash, t: Table, tx: PlaidTx) {
    && hash(tx.id) in t && t[hash(tx.id)].plaidId == Some(tx.id)
    && SaysOf(ContentOf(t[hash(tx.id)]), tx)
  }

  ghost predicate NoneLost(page: Page, a: Attempt) {
    forall i :: 0 <= i < |page.added| + |page.modified| + |page.removed| ==> !a.lost(i)
  }

  /** The table shows at `x` what the store says. */
  ghost predicate Shown(hash: IdHash, t: Table, r: Store, x: string) {
    (hash(x) in t <==> x in r) && (x in r && hash(x) in t ==> t[hash(x)].plaidId == Some(x) && ContentOf(t[hash(x)]) == r[x])
  }

  lemma ViewShows(hash: IdHash, t: Table, r: Store, ids: set<string>, keep: set<string>, x: string)
    requires Keyed(hash, t, ids) && NoCollision(hash, ids) && keep <= ids && x in keep && View(hash, t, keep) == Restrict(r, keep)
    ensures Shown(hash, t, r, x)
  {
    hide Keyed, NoCollision;
    assert x in View(hash, t, keep) <==> hash(x) in t;
    assert x in Restrict(r, keep) <==> x in r;
    if x in r {
      assert View(hash, t, keep)[x] == Restrict(r, keep)[x];
      OneRowPerPlaidId(hash, t, ids, x, hash(x));
    }
  }

  /** The table after a page says at `x` what the store of what it held before says. */
  lemma PageShows(hash: IdHash, account: string, t: Table, page: Page, a: Attempt, ids: set<string>, x: string)
    requires Keyed(hash, t, ids) && NoCollision(hash, ids) && NoneLost(page, a) && x in ids
    requires forall w :: w in Writes(page) ==> w.Id() in ids
    ensures var t', r := AllWritten(hash, account, t, Writes(page), a), AllApplied(account, View(hash, t, ids), Writes(page));
            Shown(hash, t', r, x)
  {
    var ws, s, keep := Writes(page), View(hash, t, ids), {x};
    WritesCount(page);
    assert SparesAll(ws, a.lost, keep);
    ViewWithin(hash, t, ids, keep);
    hide Keyed, NoCollision, View, Restrict, AllWritten, AllApplied, Writes, Survivors, SparesAll, Shown;
    WritesShow(hash, account, t, ws, a, ids, keep, s);
    LossElsewhere(account, s, ws, a.lost, keep);
    ViewShows(hash, AllWritten(hash, account, t, ws, a), AllApplied(account, s, ws), ids, keep, x);
  }

  lemma ViewWithin(hash: IdHash, t: Table, ids: set<string>, keep: set<string>)
    requires keep <= ids
    ensures View(hash, t, keep) == Restrict(View(hash, t, ids), keep)
  {}

  /** A sync that reaches the end of its page and loses nothing. */
  ghost predicate Whole(page: Page, e: Event) {
    e.Sync? && e.a.budget > |page.added| + |page.modified| + |page.removed| && NoneLost(page, e.a)
  }

  /**
   * After such a sync every added transaction that its page does not mention again has a row with its fields, every
   * modified one too if it had a row before, no removed one has a row, and other rows are as they were.
   */
  lemma PageArrives(hash: IdHash, account: string, server: Server, ids: set<string>, st: State, e: Event, st': State)
    requires Keyed(hash, st.table, ids) && NoCollision(hash, ids) && Names(server, ids)
    requires Step(hash, account, server, ids, st, e, st') && e.Sync?
    requires Whole(server(if e.blind then None else st.cursor), e)
    ensures var page := server(if e.blind then None else st.cursor);
            && (forall i :: 0 <= i < |page.added| && LastAdded(page, i) ==> HasRow(hash, st'.table, page.added[i]))
            && (forall i :: 0 <= i < |page.modified| && LastModified(page, i) && hash(page.modified[i].id) in st.table ==>
                  HasRow(hash, st'.table, page.modified[i]))
            && (forall x :: x in page.removed ==> hash(x) !in st'.table)
            && (forall x :: x in ids && !Mentions(page, x) ==>
                  (hash(x) in st'.table <==> hash(x) in st.table)
                  && (hash(x) in st.table && hash(x) in st'.table ==> ContentOf(st'.table[hash(x)]) == ContentOf(st.table[hash(x)])))
  {
    var c := if e.blind then None else st.cursor;
    var page, s, t, t' := server(c), View(hash, st.table, ids), st.table, st'.table;
    WritesCount(page);
    assert t' == AllWritten(hash, account, t, Writes(page), e.a);
    assert forall w :: w in Writes(page) ==> w.Id() in ids;
    ListedInIds(page, ids);
    hide Keyed, NoCollision, Names, Step, Writes, AllWritten, AllApplied, LastAdded, LastModified, Mentions;
    var r := AllApplied(account, s, Writes(page));
    forall x | x in ids ensures Shown(hash, t', r, x) && (x in s <==> hash(x) in t) && (x in s ==> s[x] == ContentOf(t[hash(x)])) {
      PageShows(hash, account, t, page, e.a, ids, x);
    }
    forall i | 0 <= i < |page.added| && LastAdded(page, i) ensures HasRow(hash, t', page.added[i]) {
      AddedIsStored(account, s, page, i);
    }
    forall i | 0 <= i < |page.modified| && LastModified(page, i) && hash(page.modified[i].id) in t ensures HasRow(hash, t', page.modified[i]) {
      ModifiedIsStored(account, s, page, i);
    }
    forall x | x in page.removed ensures hash(x) !in t' {
      RemovedIsGone(account, s, page, x);
    }
    forall x | x in ids && !Mentions(page, x)
      ensures (hash(x) in t' <==> hash(x) in t) && (hash(x) in t && hash(x) in t' ==> ContentOf(t'[hash(x)]) == ContentOf(t[hash(x)]))
    {
      UnmentionedIsKept(account, s, page, x);
    }
  }

  /** If the writes of a page are about these ids, so are its lists. */
  lemma ListedInIds(page: Page, ids: set<string>)
    requires forall w :: w in Writes(page) ==> w.Id() in ids
    ensures forall i :: 0 <= i < |page.added| ==> page.added[i].id in ids
    ensures forall i :: 0 <= i < |page.modified| ==> page.modified[i].id in ids
    ensures forall x :: x in page.removed ==> x in ids
  {
    WritesCount(page);
    var a, m := |page.added|, |page.modified|;
    forall i | 0 <= i < a ensures page.added[i].id in ids {
      WriteAt(page, i);
      assert Writes(page)[i] in Writes(page);
    }
    forall i | 0 <= i < m ensures page.modified[i].id in ids {
      WriteAt(page, a + i);
      assert Writes(page)[a + i] in Writes(page);
    }
    forall x | x in page.removed ensures x in ids {
      var k := LastIndex(page.removed, x);
      WriteAt(page, a + m + k);
      assert Writes(page)[a + m + k] in Writes(page);
    }
  }

  /**
   * The page theorem in the page's own terms: when a sync completes a page in good order, the rows of the ids in
   * question say what that page says last, and otherwise what the pages before it say.
   */
  lemma CompletedPageInItsOwnTerms(hash: IdHash, account: string, server: Server, ids: set<string>, keep: set<string>,
                                   es: seq<Event>, sts: seq<State>)
    requires NoCollision(hash, ids) && keep <= ids && Names(server, ids) && es != []
    requires Run(hash, account, server, ids, es, sts) && OthersSpare(es, keep)
    requires InOrder(server, Tracked(server, es[..|es| - 1], keep), es[|es| - 1], keep)
    ensures var k := From(Tracked(server, es[..|es| - 1], keep), es[|es| - 1]);
            var page, told, t := server(CursorAt(server, k)), PagesApplied(account, Pages(server, k)), sts[|es|].table;
            && (forall i :: 0 <= i < |page.added| && LastAdded(page, i) && page.added[i].id in keep ==> HasRow(hash, t, page.added[i]))
            && (forall i :: 0 <= i < |page.modified| && LastModified(page, i) && page.modified[i].id in keep && page.modified[i].id in told ==>
                  HasRow(hash, t, page.modified[i]))
            && (forall x :: x in page.removed && x in keep ==> hash(x) !in t)
            && (forall x :: x in keep && !Mentions(page, x) ==>
                  (hash(x) in t <==> x in told) && (hash(x) in t && x in told ==> ContentOf(t[hash(x)]) == told[x]))
  {
    var n, e := |es| - 1, es[|es| - 1];
    var k := From(Tracked(server, es[..n], keep), e);
    var page, told, t := server(CursorAt(server, k)), PagesApplied(account, Pages(server, k)), sts[|es|].table;
    CompletedPagesAppliedOnce(hash, account, server, ids, keep, es, sts);
    var _, _ := RunProgress(hash, account, server, ids, keep, es, sts);
    LastPage(account, server, k);
    hide Keyed, NoCollision, Names, Run, InOrder, Tracked, Writes, AllApplied, PagesApplied, LastAdded, LastModified, Mentions, OthersSpare, Progress;
    var r := AllApplied(account, told, Writes(page));
    forall x | x in keep ensures Shown(hash, t, r, x) {
      ViewShows(hash, t, r, ids, keep, x);
    }
    forall i | 0 <= i < |page.added| && LastAdded(page, i) && page.added[i].id in keep ensures HasRow(hash, t, page.added[i]) {
      AddedIsStored(account, told, page, i);
    }
    forall i | 0 <= i < |page.modified| && LastModified(page, i) && page.modified[i].id in keep && page.modified[i].id in told
      ensures HasRow(hash, t, page.modified[i])
    {
      ModifiedIsStored(account, told, page, i);
    }
    forall x | x in page.removed && x in keep ensures hash(x) !in t {
      RemovedIsGone(account, told, page, x);
    }
    forall x | x in keep && !Mentions(page, x)
      ensures (hash(x) in t <==> x in told) && (hash(x) in t && x in told ==> ContentOf(t[hash(x)]) == told[x])
    {
      UnmentionedIsKept(account, told, page, x);
    }
  }

  lemma LastPage(account: string, server: Server, k: nat)
    ensures PagesApplied(account, Pages(server, k + 1))
            == AllApplied(account, PagesApplied(account, Pages(server, k)), Writes(server(CursorAt(server, k))))
  {
    hide Writes, AllApplied;
    assert Pages(server, k + 1)[..k] == Pages(server, k);
  }
}
