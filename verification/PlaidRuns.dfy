/**
 * Whole runs of an account's syncs: crashes, API errors, failing row writes, cursor lookups that fail, and changes by
 * others in between.
 */
module PlaidRuns {
  import opened PlaidSync
  import opened Wrappers

  // ---------- the pages and the steps ----------

  /** The API as one account sees it: the page each cursor leads to. A page may fail to name the next cursor. */
  type Server = Option<string> -> Page

  /** The plaid ids that the API ever names. */
  ghost predicate Names(server: Server, ids: set<string>) {
    forall c, w :: w in Writes(server(c)) ==> w.Id() in ids
  }

  /** The cursor after `k` whole pages. */
  ghost function CursorAt(server: Server, k: nat): Option<string> {
    if k == 0 then None else Some(server(CursorAt(server, k - 1)).nextCursor)
  }

  /** The first `k` pages. */
  ghost function Pages(server: Server, k: nat): (ps: seq<Page>)
    ensures |ps| == k
  {
    if k == 0 then [] else Pages(server, k - 1) + [server(CursorAt(server, k - 1))]
  }

  /** The writes of page number `k`, counted from 0. */
  ghost function WritesOf(server: Server, k: nat): seq<Write> {
    Writes(server(CursorAt(server, k)))
  }

  /** The writes of the first `k` pages. */
  ghost function PageWrites(server: Server, k: nat): seq<Write> {
    if k == 0 then [] else PageWrites(server, k - 1) + WritesOf(server, k - 1)
  }

  datatype State = State(table: Table, cursor: Option<string>)

  /**
   * One sync of the account, `blind` if its cursor lookup fails, so that it starts over; an API error; or a change by
   * someone else, of the rows with the plaid ids `touched` at most.
   */
  datatype Event = Sync(a: Attempt, blind: bool) | ApiError | Others(touched: set<string>)

  /** The writes an attempt reaches: all of its page's, or as many as it gets to. */
  function Reached(ws: seq<Write>, a: Attempt): seq<Write> {
    if a.budget > |ws| then ws else ws[..a.budget]
  }

  ghost predicate Step(hash: IdHash, account: string, server: Server, ids: set<string>, st: State, e: Event, st': State) {
    match e
    case Sync(a, blind) =>
      var page := server(if blind then None else st.cursor);
      && st'.table == AllWritten(hash, account, st.table, Reached(Writes(page), a), a)
      && st'.cursor == if a.budget > |Writes(page)| && page.nextCursor != "" then Some(page.nextCursor) else st.cursor
    case ApiError => st' == st
    case Others(touched) => st'.cursor == st.cursor && OtherwiseSame(hash, ids, touched, st.table, st'.table)
  }

  /** Rows stay under their keys, and those of other plaid ids stay as they were. */
  ghost predicate OtherwiseSame(hash: IdHash, ids: set<string>, touched: set<string>, t: Table, t': Table) {
    Keyed(hash, t', ids) && View(hash, t', ids - touched) == View(hash, t, ids - touched)
  }

  ghost predicate Run(hash: IdHash, account: string, server: Server, ids: set<string>, es: seq<Event>, sts: seq<State>) {
    && |sts| == |es| + 1
    && sts[0].cursor == None && Keyed(hash, sts[0].table, ids) && View(hash, sts[0].table, ids) == map[]
    && forall i :: 0 <= i < |es| ==> Step(hash, account, server, ids, sts[i], es[i], sts[i + 1])
  }

  // ---------- keeping track ----------

  /**
   * What a run amounts to for the plaid ids in question. `at` is the page that the stored cursor leads to, and `top`
   * is how many pages have been written from at all. While `clean`, the table shows some writes of those pages and,
   * after them, the pages before `at` and some writes of page `at`.
   */
  datatype Track = Track(at: nat, top: nat, clean: bool)

  /** The page that a sync starts from. */
  ghost function From(tr: Track, e: Event): nat
    requires e.Sync?
  {
    if e.blind then 0 else tr.at
  }

  /** It reaches the end of that page. */
  ghost predicate Completes(server: Server, tr: Track, e: Event) {
    e.Sync? && e.a.budget > |WritesOf(server, From(tr, e))|
  }

  /** And it then stores a cursor. */
  ghost predicate Advances(server: Server, tr: Track, e: Event) {
    Completes(server, tr, e) && server(CursorAt(server, From(tr, e))).nextCursor != ""
  }

  /** It loses no write about these ids. */
  ghost predicate Spares(server: Server, tr: Track, e: Event, keep: set<string>) {
    e.Sync? && SparesAll(WritesOf(server, From(tr, e)), e.a.lost, keep)
  }

  ghost predicate Apart(ws: seq<Write>, keep: set<string>) {
    forall w :: w in ws ==> w.Id() !in keep
  }

  /**
   * A sync that stores a cursor passes its page; it keeps a clean record clean if it loses nothing, and cleans any
   * record if it starts over. One that does not store a cursor soils the record only if it started over and wrote
   * about these ids.
   */
  ghost function Moved(server: Server, tr: Track, e: Event, keep: set<string>): Track {
    if !e.Sync? then tr
    else
      var from := From(tr, e);
      var top := if from < tr.top then tr.top else from + 1;
      if Advances(server, tr, e) then Track(from + 1, top, Spares(server, tr, e, keep) && (from == 0 || tr.clean))
      else if from == tr.at then Track(tr.at, top, tr.clean)
      else Track(tr.at, top, tr.clean && Apart(Reached(WritesOf(server, from), e.a), keep))
  }

  ghost function Tracked(server: Server, es: seq<Event>, keep: set<string>): Track {
    if es == [] then Track(0, 0, true) else Moved(server, Tracked(server, es[..|es| - 1], keep), es[|es| - 1], keep)
  }

  /** A sync completes its page in good order: nothing lost, nothing in the way, and no later page written from before. */
  ghost predicate InOrder(server: Server, tr: Track, e: Event, keep: set<string>) {
    Completes(server, tr, e) && Spares(server, tr, e, keep) && (From(tr, e) == 0 || tr.clean) && tr.top <= From(tr, e) + 1
  }

  /** The writes whose meaning the table shows. */
  ghost function Told(server: Server, tr: Track, before: seq<Write>, done: seq<Write>): seq<Write> {
    if tr.clean then before + PageWrites(server, tr.at) + done else before
  }

  ghost predicate Progress(hash: IdHash, account: string, server: Server, keep: set<string>, st: State, tr: Track,
                           before: seq<Write>, done: seq<Write>) {
    && st.cursor == CursorAt(server, tr.at) && tr.at <= tr.top
    && Within(before, PageWrites(server, tr.top)) && Within(done, WritesOf(server, tr.at)) && (done != [] ==> tr.at < tr.top)
    && View(hash, st.table, keep) == Restrict(AllApplied(account, map[], Told(server, tr, before, done)), keep)
  }

  ghost predicate Within(part: seq<Write>, all: seq<Write>) {
    forall w :: w in part ==> w in all
  }

  // ---------- the writes of whole pages ----------

  lemma {:induction false} PagesAsWrites(account: string, server: Server, k: nat)
    ensures PagesApplied(account, Pages(server, k)) == AllApplied(account, map[], PageWrites(server, k))
  {
    hide Writes, Applied;
    if k > 0 {
      PagesAsWrites(account, server, k - 1);
      assert Pages(server, k)[..k - 1] == Pages(server, k - 1);
      AppliedInTwoParts(account, map[], PageWrites(server, k - 1), WritesOf(server, k - 1));
    } else {
      assert PageWrites(server, 0) == [];
    }
  }

  lemma {:induction false} EarlierPages(server: Server, j: nat, k: nat)
    requires j <= k
    ensures Within(PageWrites(server, j), PageWrites(server, k))
    decreases k
  {
    hide WritesOf;
    if j < k { EarlierPages(server, j, k - 1); }
  }

  lemma PageWithin(server: Server, j: nat, k: nat)
    requires j < k
    ensures Within(WritesOf(server, j), PageWrites(server, k))
  {
    hide WritesOf;
    assert PageWrites(server, j + 1) == PageWrites(server, j) + WritesOf(server, j);
    EarlierPages(server, j + 1, k);
  }

  /** Everything the table shows comes from the pages written from. */
  lemma ToldWithin(server: Server, tr: Track, before: seq<Write>, done: seq<Write>)
    requires tr.at <= tr.top && Within(before, PageWrites(server, tr.top)) && Within(done, WritesOf(server, tr.at))
    requires done != [] ==> tr.at < tr.top
    ensures Within(Told(server, tr, before, done), PageWrites(server, tr.top))
  {
    hide WritesOf, PageWrites;
    EarlierPages(server, tr.at, tr.top);
    if done != [] { PageWithin(server, tr.at, tr.top); }
  }

  /** A whole page makes up for any part of it. */
  lemma PageAbsorbs(account: string, s: Store, done: seq<Write>, ws: seq<Write>)
    requires Within(done, ws)
    ensures AllApplied(account, s, done + ws) == AllApplied(account, s, ws)
  {
    hide Applied;
    AppliedInTwoParts(account, s, done, ws);
    AnyPartThenWhole(account, s, done, ws);
  }

  /** Completing a page on top of a clean record: the part of it that was there does not count. */
  lemma PageClosed(account: string, server: Server, at: nat, before: seq<Write>, done: seq<Write>)
    requires Within(done, WritesOf(server, at))
    ensures AllApplied(account, map[], before + PageWrites(server, at) + done + WritesOf(server, at))
            == AllApplied(account, map[], before + PageWrites(server, at + 1))
  {
    hide WritesOf, Applied;
    var base, ws := before + PageWrites(server, at), WritesOf(server, at);
    assert base + done + ws == base + (done + ws) && base + ws == before + PageWrites(server, at + 1);
    AppliedInTwoParts(account, map[], base, done + ws);
    AppliedInTwoParts(account, map[], base, ws);
    PageAbsorbs(account, AllApplied(account, map[], base), done, ws);
  }

  // ---------- one event ----------

  /** What a sync adds to the table is what its surviving writes mean. */
  lemma SyncShows(hash: IdHash, account: string, server: Server, ids: set<string>, keep: set<string>,
                  t: Table, k: nat, a: Attempt, told: seq<Write>)
    requires NoCollision(hash, ids) && keep <= ids && Names(server, ids) && Keyed(hash, t, ids)
    requires View(hash, t, keep) == Restrict(AllApplied(account, map[], told), keep)
    ensures var part := Reached(WritesOf(server, k), a);
            var t', few := AllWritten(hash, account, t, part, a), Survivors(part, a.lost);
            && Keyed(hash, t', ids) && Within(few, WritesOf(server, k))
            && View(hash, t', keep) == Restrict(AllApplied(account, map[], told + few), keep)
  {
    hide Keyed, NoCollision, View, Applied, AllApplied, AllWritten, Writes, Restrict, Survivors;
    var part := Reached(WritesOf(server, k), a);
    assert forall w :: w in part ==> w in WritesOf(server, k);
    assert Names(server, ids) ==> forall w :: w in Writes(server(CursorAt(server, k))) ==> w.Id() in ids;
    WritesShow(hash, account, t, part, a, ids, keep, AllApplied(account, map[], told));
    SurvivorsAreThere(part, a.lost);
    AppliedInTwoParts(account, map[], told, Survivors(part, a.lost));
  }

  /** A sync that loses nothing about these ids shows the whole page at them. */
  lemma NothingLost(account: string, told: seq<Write>, ws: seq<Write>, lost: nat -> bool, keep: set<string>)
    requires SparesAll(ws, lost, keep)
    ensures Restrict(AllApplied(account, map[], told + Survivors(ws, lost)), keep) == Restrict(AllApplied(account, map[], told + ws), keep)
  {
    hide Applied, Restrict, SparesAll;
    AppliedInTwoParts(account, map[], told, Survivors(ws, lost));
    AppliedInTwoParts(account, map[], told, ws);
    LossElsewhere(account, AllApplied(account, map[], told), ws, lost, keep);
  }

  /** Survivors of writes about other ids do not show. */
  lemma NothingShown(account: string, told: seq<Write>, part: seq<Write>, lost: nat -> bool, keep: set<string>)
    requires Apart(part, keep)
    ensures Restrict(AllApplied(account, map[], told + Survivors(part, lost)), keep) == Restrict(AllApplied(account, map[], told), keep)
  {
    hide Applied, Restrict;
    SurvivorsAreThere(part, lost);
    AppliedInTwoParts(account, map[], told, Survivors(part, lost));
    UnrelatedWrites(account, AllApplied(account, map[], told), Survivors(part, lost), keep);
  }

  /** How the record goes on over one sync: the writes before the current round of pages, and those of the current page. */
  ghost function Continued(server: Server, tr: Track, e: Event, keep: set<string>, before: seq<Write>, done: seq<Write>): (seq<Write>, seq<Write>)
    requires e.Sync?
  {
    var from, tr' := From(tr, e), Moved(server, tr, e, keep);
    var told, few := Told(server, tr, before, done), Survivors(Reached(WritesOf(server, from), e.a), e.a.lost);
    if !tr'.clean then (told + few, [])
    else if Advances(server, tr, e) then (if from == 0 then told else before, [])
    else if from == tr.at then (before, done + few)
    else (before, done)
  }

  /** The record still says what the table shows. */
  lemma SyncTold(account: string, server: Server, tr: Track, e: Event, keep: set<string>, before: seq<Write>, done: seq<Write>)
    requires e.Sync? && Within(done, WritesOf(server, tr.at))
    ensures var few := Survivors(Reached(WritesOf(server, From(tr, e)), e.a), e.a.lost);
            var (before', done') := Continued(server, tr, e, keep, before, done);
            Restrict(AllApplied(account, map[], Told(server, tr, before, done) + few), keep)
            == Restrict(AllApplied(account, map[], Told(server, Moved(server, tr, e, keep), before', done')), keep)
  {
    hide Applied, AllApplied, Restrict, Survivors, WritesOf, SparesAll, Apart;
    var from, tr' := From(tr, e), Moved(server, tr, e, keep);
    var told, ws := Told(server, tr, before, done), WritesOf(server, from);
    var few := Survivors(Reached(ws, e.a), e.a.lost);
    if !tr'.clean {
    } else if Advances(server, tr, e) {
      NothingLost(account, told, ws, e.a.lost, keep);
      if from == 0 {
        assert PageWrites(server, 1) == PageWrites(server, 0) + ws == ws;
        assert told + PageWrites(server, 1) + [] == told + ws;
      } else {
        PageClosed(account, server, tr.at, before, done);
        assert before + PageWrites(server, tr.at + 1) + [] == before + PageWrites(server, tr.at + 1);
      }
    } else if from == tr.at {
      assert before + PageWrites(server, tr.at) + (done + few) == told + few;
    } else {
      NothingShown(account, told, Reached(ws, e.a), e.a.lost, keep);
    }
  }

  /** And only speaks of the pages written from. */
  lemma SyncWithin(server: Server, tr: Track, e: Event, keep: set<string>, before: seq<Write>, done: seq<Write>)
    requires e.Sync? && tr.at <= tr.top && Within(before, PageWrites(server, tr.top)) && Within(done, WritesOf(server, tr.at))
    requires done != [] ==> tr.at < tr.top
    ensures var (before', done') := Continued(server, tr, e, keep, before, done);
            var tr' := Moved(server, tr, e, keep);
            && tr'.at <= tr'.top && Within(before', PageWrites(server, tr'.top)) && Within(done', WritesOf(server, tr'.at))
            && (done' != [] ==> tr'.at < tr'.top)
  {
    hide Survivors, WritesOf, PageWrites, Told;
    var from, tr' := From(tr, e), Moved(server, tr, e, keep);
    var part := Reached(WritesOf(server, from), e.a);
    ToldWithin(server, tr, before, done);
    EarlierPages(server, tr.top, tr'.top);
    SurvivorsAreThere(part, e.a.lost);
    assert Within(part, WritesOf(server, from));
    PageWithin(server, from, tr'.top);
  }

  lemma SmallerView(hash: IdHash, t: Table, t': Table, big: set<string>, small: set<string>)
    requires View(hash, t, big) == View(hash, t', big) && small <= big
    ensures View(hash, t, small) == View(hash, t', small)
  {
    forall x | x in small ensures (hash(x) in t <==> hash(x) in t') && (hash(x) in t ==> ContentOf(t[hash(x)]) == ContentOf(t'[hash(x)])) {
      assert x in View(hash, t, big) <==> x in View(hash, t', big);
      if hash(x) in t { assert View(hash, t, big)[x] == View(hash, t', big)[x]; }
    }
  }

  lemma SyncProgress(hash: IdHash, account: string, server: Server, ids: set<string>, keep: set<string>,
                     st: State, e: Event, st': State, tr: Track, before: seq<Write>, done: seq<Write>)
    requires NoCollision(hash, ids) && keep <= ids && Names(server, ids) && Keyed(hash, st.table, ids)
    requires e.Sync? && Step(hash, account, server, ids, st, e, st') && Progress(hash, account, server, keep, st, tr, before, done)
    ensures Keyed(hash, st'.table, ids)
    ensures var (before', done') := Continued(server, tr, e, keep, before, done);
            Progress(hash, account, server, keep, st', Moved(server, tr, e, keep), before', done')
  {
    hide Keyed, NoCollision, Names, View, Applied, AllApplied, AllWritten, Restrict, Told, Within, PageWrites, Continued, Spares, Apart, Survivors, Reached, Writes;
    SyncShows(hash, account, server, ids, keep, st.table, From(tr, e), e.a, Told(server, tr, before, done));
    SyncTold(account, server, tr, e, keep, before, done);
    SyncWithin(server, tr, e, keep, before, done);
  }

  /** Any event that spares these ids keeps the record. */
  lemma EventProgress(hash: IdHash, account: string, server: Server, ids: set<string>, keep: set<string>,
                      st: State, e: Event, st': State, tr: Track, before: seq<Write>, done: seq<Write>)
    returns (before': seq<Write>, done': seq<Write>)
    requires NoCollision(hash, ids) && keep <= ids && Names(server, ids) && Keyed(hash, st.table, ids)
    requires Step(hash, account, server, ids, st, e, st') && (e.Others? ==> e.touched !! keep)
    requires Progress(hash, account, server, keep, st, tr, before, done)
    ensures Keyed(hash, st'.table, ids)
    ensures Progress(hash, account, server, keep, st', Moved(server, tr, e, keep), before', done')
  {
    hide Keyed, NoCollision, Names, View, Applied, AllApplied, AllWritten, Restrict, Told, Within, PageWrites, Continued, Writes;
    before', done' := before, done;
    match e
    case Sync(_, _) =>
      SyncProgress(hash, account, server, ids, keep, st, e, st', tr, before, done);
      var r := Continued(server, tr, e, keep, before, done);
      before', done' := r.0, r.1;
    case ApiError =>
    case Others(touched) =>
      SmallerView(hash, st.table, st'.table, ids - touched, keep);
  }

  // ---------- runs ----------

  lemma RunStep(hash: IdHash, account: string, server: Server, ids: set<string>, es: seq<Event>, sts: seq<State>)
    requires es != [] && Run(hash, account, server, ids, es, sts)
    ensures Run(hash, account, server, ids, es[..|es| - 1], sts[..|es|])
    ensures Step(hash, account, server, ids, sts[|es| - 1], es[|es| - 1], sts[|es|])
  {
    hide Keyed, View, Step;
    var n := |es| - 1;
    forall i | 0 <= i < n ensures Step(hash, account, server, ids, sts[..n + 1][i], es[..n][i], sts[..n + 1][i + 1]) {
      assert Step(hash, account, server, ids, sts[i], es[i], sts[i + 1]);
    }
  }

  /** No one but the syncs touches these ids. */
  ghost predicate OthersSpare(es: seq<Event>, keep: set<string>) {
    forall e :: e in es && e.Others? ==> e.touched !! keep
  }

  /** A new account shows nothing. */
  lemma EmptyStart(hash: IdHash, account: string, server: Server, ids: set<string>, keep: set<string>, st: State)
    requires keep <= ids && st.cursor == None && View(hash, st.table, ids) == map[]
    ensures Progress(hash, account, server, keep, st, Track(0, 0, true), [], [])
  {
    SmallerView(hash, st.table, map[], ids, keep);
    assert Told(server, Track(0, 0, true), [], []) == [];
  }

  /**
   * However often syncs crash, fail, lose writes, start over or are interleaved with other changes: rows stay under
   * their keys, and for ids that no one else touches the table shows what the record says.
   */
  lemma {:induction false} RunProgress(hash: IdHash, account: string, server: Server, ids: set<string>, keep: set<string>,
                                       es: seq<Event>, sts: seq<State>) returns (before: seq<Write>, done: seq<Write>)
    requires NoCollision(hash, ids) && keep <= ids && Names(server, ids)
    requires Run(hash, account, server, ids, es, sts) && OthersSpare(es, keep)
    ensures Keyed(hash, sts[|es|].table, ids)
    ensures Progress(hash, account, server, keep, sts[|es|], Tracked(server, es, keep), before, done)
  {
    hide Keyed, NoCollision, View, Names, Step, Progress, Moved;
    if es == [] {
      EmptyStart(hash, account, server, ids, keep, sts[0]);
      before, done := [], [];
    } else {
      hide Run;
      var n := |es| - 1;
      RunStep(hash, account, server, ids, es, sts);
      assert es[n] in es && OthersSpare(es[..n], keep);
      before, done := RunProgress(hash, account, server, ids, keep, es[..n], sts[..n + 1]);
      before, done := EventProgress(hash, account, server, ids, keep, sts[n], es[n], sts[n + 1], Tracked(server, es[..n], keep), before, done);
    }
  }

  /** In every run at all, every synced row sits under the hash of its plaid id and no plaid id has two rows. */
  lemma RowsStayKeyed(hash: IdHash, account: string, server: Server, ids: set<string>, es: seq<Event>, sts: seq<State>)
    requires NoCollision(hash, ids) && Names(server, ids) && Run(hash, account, server, ids, es, sts)
    ensures Keyed(hash, sts[|es|].table, ids)
    ensures var t := sts[|es|].table;
            forall j, k :: j in t && k in t && t[j].plaidId.Some? && t[j].plaidId == t[k].plaidId ==> j == k
  {
    hide NoCollision, View, Writes, Names, Progress, Run;
    var _, _ := RunProgress(hash, account, server, ids, {}, es, sts);
  }

  /** A page completed in good order on top of a record is all pages up to it, once each. */
  lemma OrderlyPage(account: string, server: Server, tr: Track, from: nat, before: seq<Write>, done: seq<Write>)
    requires tr.at <= tr.top <= from + 1 && (from == 0 || (from == tr.at && tr.clean))
    requires Within(before, PageWrites(server, tr.top)) && Within(done, WritesOf(server, tr.at)) && (done != [] ==> tr.at < tr.top)
    ensures AllApplied(account, map[], Told(server, tr, before, done) + WritesOf(server, from))
            == AllApplied(account, map[], PageWrites(server, from + 1))
  {
    hide Applied, AllApplied, WritesOf, PageWrites;
    var told, ws := Told(server, tr, before, done), WritesOf(server, from);
    EarlierPages(server, tr.top, from + 1);
    ToldWithin(server, tr, before, done);
    if from == 0 {
      FirstPage(server);
      PageAbsorbs(account, map[], told, ws);
    } else {
      PageClosed(account, server, from, before, done);
      PageAbsorbs(account, map[], before, PageWrites(server, from + 1));
    }
  }

  lemma FirstPage(server: Server)
    ensures PageWrites(server, 1) == WritesOf(server, 0)
  {
    assert PageWrites(server, 1) == PageWrites(server, 0) + WritesOf(server, 0);
  }

  /**
   * Crash-replay safety: whenever a sync completes a page in good order, after any history of crashes, replays, lost
   * writes and fresh starts, the table holds for every plaid id that no one else touches exactly what the pages up to
   * that one say about it when each is applied once, in order.
   */
  lemma CompletedPagesAppliedOnce(hash: IdHash, account: string, server: Server, ids: set<string>, keep: set<string>,
                                  es: seq<Event>, sts: seq<State>)
    requires NoCollision(hash, ids) && keep <= ids && Names(server, ids) && es != []
    requires Run(hash, account, server, ids, es, sts) && OthersSpare(es, keep)
    requires InOrder(server, Tracked(server, es[..|es| - 1], keep), es[|es| - 1], keep)
    ensures var from := From(Tracked(server, es[..|es| - 1], keep), es[|es| - 1]);
            View(hash, sts[|es|].table, keep) == Restrict(PagesApplied(account, Pages(server, from + 1)), keep)
    ensures sts[|es|].cursor == CursorAt(server, Tracked(server, es, keep).at)
  {
    hide Keyed, NoCollision, View, Names, Applied, AllApplied, PagesApplied, AllWritten, Restrict, SparesAll, Writes, Told, Within, PageWrites, Moved, Survivors, Tracked;
    var n, e := |es| - 1, es[|es| - 1];
    var tr := Tracked(server, es[..n], keep);
    var from := From(tr, e);
    var _, _ := RunProgress(hash, account, server, ids, keep, es, sts);
    RunStep(hash, account, server, ids, es, sts);
    var before, done := RunProgress(hash, account, server, ids, keep, es[..n], sts[..n + 1]);
    SyncShows(hash, account, server, ids, keep, sts[n].table, from, e.a, Told(server, tr, before, done));
    NothingLost(account, Told(server, tr, before, done), WritesOf(server, from), e.a.lost, keep);
    OrderlyPage(account, server, tr, from, before, done);
    PagesAsWrites(account, server, from + 1);
  }

  /** A sync that can read its cursor and, if it completes its page, loses no write about these ids. */
  ghost predicate Calm(server: Server, tr: Track, e: Event, keep: set<string>) {
    e.Sync? ==> !e.blind && (Completes(server, tr, e) ==> Spares(server, tr, e, keep))
  }

  /** If every sync so far was calm, every page is completed in good order, whatever crashed in between. */
  lemma {:induction false} CalmRunsAreInOrder(server: Server, es: seq<Event>, keep: set<string>)
    requires forall i :: 0 <= i < |es| ==> Calm(server, Tracked(server, es[..i], keep), es[i], keep)
    ensures var tr := Tracked(server, es, keep); tr.clean && tr.at <= tr.top <= tr.at + 1
    ensures forall e :: Calm(server, Tracked(server, es, keep), e, keep) && Completes(server, Tracked(server, es, keep), e) ==>
              InOrder(server, Tracked(server, es, keep), e, keep)
  {
    if es != [] {
      hide Spares, WritesOf;
      var n := |es| - 1;
      forall i | 0 <= i < n ensures Calm(server, Tracked(server, es[..n][..i], keep), es[..n][i], keep) {
        assert es[..n][..i] == es[..i];
      }
      CalmRunsAreInOrder(server, es[..n], keep);
      assert Calm(server, Tracked(server, es[..n], keep), es[n], keep);
    }
  }

  // ---------- a fresh start that is not finished ----------

  lemma OneWrite(hash: IdHash, account: string, t: Table, w: Write, a: Attempt)
    requires !a.lost(0)
    ensures AllWritten(hash, account, t, [w], a) == Written(hash, account, t, w, a.clock(0))
  {
    assert [w][..0] == [] && AllWritten(hash, account, t, [], a) == t;
  }

  lemma OneApplied(account: string, s: Store, w: Write)
    ensures AllApplied(account, s, [w]) == Applied(account, s, w)
  {
    assert [w][..0] == [] && AllApplied(account, s, []) == s;
  }

  /** Adds "a" for 1 cent, changes it to 2, and then has nothing more to say. */
  ghost predicate ThreePages(server: Server, old1: PlaidTx, new2: PlaidTx) {
    && old1 == PlaidTx("a", 1, 0, "", "") && new2 == PlaidTx("a", 2, 0, "", "")
    && server(None) == Page([old1], [], [], "c1") && server(Some("c1")) == Page([], [new2], [], "c2")
    && server(Some("c2")) == Page([], [], [], "c3")
  }

  lemma ThreeWrites(server: Server, old1: PlaidTx, new2: PlaidTx)
    requires ThreePages(server, old1, new2)
    ensures Writes(server(None)) == [Upsert(old1)] && Writes(server(Some("c1"))) == [Update(new2)] && Writes(server(Some("c2"))) == []
  {}

  /**
   * Two pages are completed; then a sync whose cursor lookup fails makes the first page's write again and dies before
   * it stores a cursor. The next sync completes the last page from the stored cursor, and the row says 1 cent for good.
   */
  lemma UnfinishedFreshStartDiverges(hash: IdHash, account: string, server: Server, ids: set<string>, old1: PlaidTx, new2: PlaidTx,
                                     whole: Attempt, dies: Attempt, sts: seq<State>)
    requires ThreePages(server, old1, new2)
    requires whole == Attempt(_ => 0, 2, _ => false) && dies == Attempt(_ => 0, 1, _ => false)
    requires |sts| == 5 && sts[0] == State(map[], None)
    requires Step(hash, account, server, ids, sts[0], Sync(whole, false), sts[1])
    requires Step(hash, account, server, ids, sts[1], Sync(whole, false), sts[2])
    requires Step(hash, account, server, ids, sts[2], Sync(dies, true), sts[3])
    requires Step(hash, account, server, ids, sts[3], Sync(whole, false), sts[4])
    ensures sts[4].cursor == Some("c3")
    ensures hash("a") in sts[4].table && sts[4].table[hash("a")].amountCents == 1
    ensures var told := PagesApplied(account, Pages(server, 3)); "a" in told && told["a"].amountCents == 2
  {
    ThreeWrites(server, old1, new2);
    hide Writes, AllWritten, AllApplied;
    OneWrite(hash, account, map[], Upsert(old1), whole);
    OneWrite(hash, account, sts[1].table, Update(new2), whole);
    OneWrite(hash, account, sts[2].table, Upsert(old1), dies);
    assert [Upsert(old1)][..1] == [Upsert(old1)];
    EmptyWrites(hash, account, sts[3].table, whole);
    assert sts[2].cursor == Some("c2") && hash("a") in sts[2].table;
    ThreePagesSay(account, server, old1, new2);
  }

  lemma ThreePagesSay(account: string, server: Server, old1: PlaidTx, new2: PlaidTx)
    requires ThreePages(server, old1, new2)
    ensures var told := PagesApplied(account, Pages(server, 3)); "a" in told && told["a"].amountCents == 2
  {
    ThreeWrites(server, old1, new2);
    hide Writes;
    PagesAsWrites(account, server, 3);
    assert CursorAt(server, 1) == Some("c1");
    assert CursorAt(server, 2) == Some("c2");
    assert PageWrites(server, 1) == PageWrites(server, 0) + WritesOf(server, 0) == [Upsert(old1)];
    assert PageWrites(server, 2) == PageWrites(server, 1) + WritesOf(server, 1) == [Upsert(old1)] + [Update(new2)];
    assert PageWrites(server, 3) == PageWrites(server, 2) + WritesOf(server, 2) == [Upsert(old1)] + [Update(new2)];
    AppliedInTwoParts(account, map[], [Upsert(old1)], [Update(new2)]);
    OneApplied(account, map[], Upsert(old1));
    OneApplied(account, Applied(account, map[], Upsert(old1)), Update(new2));
  }

  // ---------- what other changes are ----------

  /** Another account's sync, or any part of one, touches at most the plaid ids its page names. */
  lemma OtherAccountsAreOthers(hash: IdHash, account: string, other: string, server: Server, ids: set<string>, touched: set<string>,
                               st: State, ws: seq<Write>, a: Attempt)
    requires Keyed(hash, st.table, ids) && NoCollision(hash, ids)
    requires forall w :: w in ws ==> w.Id() in ids && w.Id() in touched
    ensures Step(hash, account, server, ids, st, Others(touched), State(AllWritten(hash, other, st.table, ws, a), st.cursor))
  {
    hide Keyed, View, AllWritten, Writes, NoCollision, Step;
    var t' := AllWritten(hash, other, st.table, ws, a);
    OthersStep(hash, account, server, ids, touched, st, t');
    KeyedAfter(hash, other, st.table, ws, a, ids);
    forall x | x in ids - touched ensures (hash(x) in st.table <==> hash(x) in t') && (hash(x) in t' ==> t'[hash(x)] == st.table[hash(x)]) {
      KeysApart(hash, ids, ws, touched, x);
      OtherRowsUntouched(hash, other, st.table, ws, a, ids, hash(x));
    }
    SameView(hash, st.table, t', ids - touched);
  }

  lemma KeyedAfter(hash: IdHash, account: string, t: Table, ws: seq<Write>, a: Attempt, ids: set<string>)
    requires Keyed(hash, t, ids) && NoCollision(hash, ids) && forall w :: w in ws ==> w.Id() in ids
    ensures Keyed(hash, AllWritten(hash, account, t, ws, a), ids)
  {
    hide Keyed, AllWritten, NoCollision;
    NothingToSee(hash, t);
    WritesShow(hash, account, t, ws, a, ids, {}, map[]);
  }

  lemma NothingToSee(hash: IdHash, t: Table)
    ensures View(hash, t, {}) == Restrict(map[], {})
  {}

  lemma KeysApart(hash: IdHash, ids: set<string>, ws: seq<Write>, touched: set<string>, x: string)
    requires NoCollision(hash, ids) && x in ids && x !in touched
    requires forall w :: w in ws ==> w.Id() in ids && w.Id() in touched
    ensures forall w :: w in ws ==> w.Id() in ids && hash(w.Id()) != hash(x)
  {}

  lemma SameView(hash: IdHash, t: Table, t': Table, keep: set<string>)
    requires forall x :: x in keep ==> (hash(x) in t <==> hash(x) in t') && (hash(x) in t' ==> t'[hash(x)] == t[hash(x)])
    ensures View(hash, t, keep) == View(hash, t', keep)
  {}

  /** Creating, editing and deleting rows by hand: a new row has a short key and no plaid id, an edited one keeps its plaid id. */
  ghost predicate HandChange(t: Table, t': Table, k: string) {
    || (k !in t && |k| == MANUAL_ID_LEN && k in t' && t'[k].plaidId == None && t' == t[k := t'[k]])
    || (k in t && k in t' && t'[k].plaidId == t[k].plaidId && t' == t[k := t'[k]])
    || (k in t && t' == t - {k})
  }

  /** The plaid id of a row, if it has one. */
  function PlaidIdOf(t: Table, k: string): set<string> {
    if k in t && t[k].plaidId.Some? then {t[k].plaidId.value} else {}
  }

  /** A change by hand touches the plaid id of its row at most, and none if the row is hand-entered. */
  lemma HandChangesAreOthers(hash: IdHash, account: string, server: Server, ids: set<string>, st: State, t': Table, k: string)
    requires Keyed(hash, st.table, ids) && NoCollision(hash, ids) && HandChange(st.table, t', k)
    ensures Step(hash, account, server, ids, st, Others(PlaidIdOf(st.table, k)), State(t', st.cursor))
  {
    HandKeepsKeys(hash, st.table, t', k, ids);
    hide Keyed, NoCollision, View, AllWritten, Writes, HandChange, PlaidIdOf, Step;
    OthersStep(hash, account, server, ids, PlaidIdOf(st.table, k), st, t');
    var keep := ids - PlaidIdOf(st.table, k);
    forall x | x in keep ensures (hash(x) in st.table <==> hash(x) in t') && (hash(x) in t' ==> t'[hash(x)] == st.table[hash(x)]) {
      HandElsewhere(hash, st.table, t', k, ids, x);
    }
    SameView(hash, st.table, t', keep);
  }

  lemma OthersStep(hash: IdHash, account: string, server: Server, ids: set<string>, touched: set<string>, st: State, t': Table)
    ensures Step(hash, account, server, ids, st, Others(touched), State(t', st.cursor)) <==> OtherwiseSame(hash, ids, touched, st.table, t')
  {
    hide OtherwiseSame;
  }

  lemma HandKeepsKeys(hash: IdHash, t: Table, t': Table, k: string, ids: set<string>)
    requires Keyed(hash, t, ids) && HandChange(t, t', k)
    ensures Keyed(hash, t', ids)
  {}

  lemma HandElsewhere(hash: IdHash, t: Table, t': Table, k: string, ids: set<string>, x: string)
    requires Keyed(hash, t, ids) && NoCollision(hash, ids) && HandChange(t, t', k) && x in ids && x !in PlaidIdOf(t, k)
    ensures (hash(x) in t <==> hash(x) in t') && (hash(x) in t' ==> t'[hash(x)] == t[hash(x)])
  {
    if hash(x) == k && k in t { OneRowPerPlaidId(hash, t, ids, x, k); }
  }

  /** What `SyncAccount` does with the page that the stored cursor leads to is a sync step of the account. */
  method SyncFromServer(s: PlaidSyncScheduler, account: string, server: Server, a: Attempt, blind: bool, ghost ids: set<string>)
    modifies s
    ensures Step(s.hash, account, server, ids, State(old(s.transactions), old(s.StoredCursor(account))), Sync(a, blind),
                 State(s.transactions, s.StoredCursor(account)))
    ensures forall other :: other != account ==> s.StoredCursor(other) == old(s.StoredCursor(other))
  {
    hide AllWritten, Writes;
    var cursor := s.GetCursor(account, blind);
    var _ := s.SyncAccount(account, Some(server(cursor)), a);
  }
}
