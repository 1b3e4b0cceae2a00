/** The migration runner: a sorted registry, one transaction per migration, and resumption after a failed attempt. */
module Migrations {

  /** `up` is what the migration does to the schema when it succeeds. */
  datatype Migration<!S> = Migration(version: int, name: string, up: S -> S)

  /** Strictly ascending versions. */
  ghost predicate Sorted<S(!new)>(ms: seq<Migration<S>>) {
    forall i, j :: 0 <= i < j < |ms| ==> ms[i].version < ms[j].version
  }

  function VersionsOf<S>(ms: seq<Migration<S>>): set<int> {
    set i | 0 <= i < |ms| :: ms[i].version
  }

  // ---------- the registry ----------

  /** The registry with one more migration in its place. */
  ghost function Inserted<S(!new)>(ms: seq<Migration<S>>, m: Migration<S>): seq<Migration<S>> {
    if ms == [] || m.version < ms[0].version then [m] + ms else [ms[0]] + Inserted(ms[1..], m)
  }

  lemma SortedCons<S(!new)>(x: Migration<S>, t: seq<Migration<S>>)
    requires Sorted(t) && forall v :: v in VersionsOf(t) ==> x.version < v
    ensures Sorted([x] + t)
  {
    forall j | 0 <= j < |t| ensures x.version < t[j].version { assert t[j].version in VersionsOf(t); }
  }

  lemma SortedTail<S(!new)>(ms: seq<Migration<S>>)
    requires Sorted(ms) && ms != []
    ensures Sorted(ms[1..]) && forall v :: v in VersionsOf(ms[1..]) ==> ms[0].version < v
  {
    forall v | v in VersionsOf(ms[1..]) ensures ms[0].version < v {
      var i :| 0 <= i < |ms[1..]| && ms[1..][i].version == v;
    }
  }

  lemma AloneSorted<S(!new)>(none: seq<Migration<S>>, m: Migration<S>)
    requires none == []
    ensures Sorted([m]) && VersionsOf([m]) == {m.version} && VersionsOf(none) == {}
    ensures [m] + none == [m]
  {
    assert VersionsOf(none) == {};
    TailVersions([m]);
  }

  lemma {:induction false} InsertedSorted<S(!new)>(ms: seq<Migration<S>>, m: Migration<S>)
    requires Sorted(ms) && m.version !in VersionsOf(ms)
    ensures Sorted(Inserted(ms, m))
    ensures VersionsOf(Inserted(ms, m)) == VersionsOf(ms) + {m.version}
  {
    hide Sorted, VersionsOf;
    if ms == [] {
      AloneSorted(ms, m);
    } else {
      TailVersions(ms);
      SortedTail(ms);
      if m.version < ms[0].version {
        assert ([m] + ms)[1..] == ms;
        TailVersions([m] + ms);
        SortedCons(m, ms);
      } else {
        InsertedSorted(ms[1..], m);
        var t := Inserted(ms[1..], m);
        assert ([ms[0]] + t)[1..] == t;
        TailVersions([ms[0]] + t);
        SortedCons(ms[0], t);
      }
    }
  }

  lemma TailVersions<S>(ms: seq<Migration<S>>)
    requires ms != []
    ensures VersionsOf(ms) == {ms[0].version} + VersionsOf(ms[1..])
  {
    forall v | v in VersionsOf(ms) ensures v in {ms[0].version} + VersionsOf(ms[1..]) {
      var i :| 0 <= i < |ms| && ms[i].version == v;
      if i > 0 { assert ms[1..][i - 1].version == v; }
    }
    forall v | v in VersionsOf(ms[1..]) ensures v in VersionsOf(ms) {
      var i :| 0 <= i < |ms[1..]| && ms[1..][i].version == v;
      assert ms[i + 1].version == v;
    }
    assert ms[0].version in VersionsOf(ms);
  }

  /** The registry after registering `rs` one by one on an empty one; a taken version is refused. */
  ghost function Registered<S(!new)>(rs: seq<Migration<S>>): seq<Migration<S>> {
    if rs == [] then []
    else
      var ms, m := Registered(rs[..|rs| - 1]), rs[|rs| - 1];
      if m.version in VersionsOf(ms) then ms else Inserted(ms, m)
  }

  ghost predicate Distinct<S(!new)>(rs: seq<Migration<S>>) {
    forall i, j :: 0 <= i < j < |rs| ==> rs[i].version != rs[j].version
  }

  lemma {:induction false} InsertedContents<S(!new)>(ms: seq<Migration<S>>, m: Migration<S>)
    ensures multiset(Inserted(ms, m)) == multiset(ms) + multiset{m}
  {
    if ms != [] && m.version >= ms[0].version {
      InsertedContents(ms[1..], m);
      assert ms == [ms[0]] + ms[1..];
      assert Inserted(ms, m) == [ms[0]] + Inserted(ms[1..], m);
    }
  }

  lemma SnocVersions<S>(ms: seq<Migration<S>>)
    requires ms != []
    ensures VersionsOf(ms) == VersionsOf(ms[..|ms| - 1]) + {ms[|ms| - 1].version}
  {
    var init := ms[..|ms| - 1];
    forall v | v in VersionsOf(init) ensures v in VersionsOf(ms) {
      var i :| 0 <= i < |init| && init[i].version == v;
      assert ms[i].version == v;
    }
    forall v | v in VersionsOf(ms) ensures v in VersionsOf(init) || v == ms[|ms| - 1].version {
      var i :| 0 <= i < |ms| && ms[i].version == v;
      if i < |init| { assert init[i].version == v; }
    }
  }

  /** Whatever the order, the registry is strictly ascending and holds every version that was registered. */
  lemma {:induction false} RegisteredSorted<S(!new)>(rs: seq<Migration<S>>)
    ensures Sorted(Registered(rs)) && VersionsOf(Registered(rs)) == VersionsOf(rs)
  {
    if rs == [] {
      assert Registered(rs) == rs;
    } else {
      hide VersionsOf, Sorted;
      var ms, m := Registered(rs[..|rs| - 1]), rs[|rs| - 1];
      RegisteredSorted(rs[..|rs| - 1]);
      SnocVersions(rs);
      if m.version !in VersionsOf(ms) { InsertedSorted(ms, m); }
    }
  }

  lemma LastIsNew<S(!new)>(rs: seq<Migration<S>>)
    requires Distinct(rs) && rs != []
    ensures Distinct(rs[..|rs| - 1]) && rs[|rs| - 1].version !in VersionsOf(rs[..|rs| - 1])
  {}

  /** Distinct versions are all taken up: the registry is a permutation of what was registered. */
  lemma {:induction false} RegisteredContents<S(!new)>(rs: seq<Migration<S>>)
    requires Distinct(rs)
    ensures multiset(Registered(rs)) == multiset(rs)
  {
    if rs != [] {
      hide Inserted, Sorted, VersionsOf, Distinct;
      var n := |rs| - 1;
      LastIsNew(rs);
      RegisteredContents(rs[..n]);
      RegisteredSorted(rs[..n]);
      InsertedContents(Registered(rs[..n]), rs[n]);
      MultisetSnoc(rs);
    }
  }

  lemma MultisetSnoc<S(!new)>(rs: seq<Migration<S>>)
    requires rs != []
    ensures multiset(rs) == multiset(rs[..|rs| - 1]) + multiset{rs[|rs| - 1]}
  {
    assert rs == rs[..|rs| - 1] + [rs[|rs| - 1]];
  }

  /** Two strictly ascending registries with the same contents are the same. */
  lemma {:induction false} SortedUnique<S(!new)>(a: seq<Migration<S>>, b: seq<Migration<S>>)
    requires Sorted(a) && Sorted(b) && multiset(a) == multiset(b)
    ensures a == b
  {
    hide Sorted;
    SameLength(a, b);
    if a != [] {
      SameFirst(a, b);
      SortedTail(a);
      SortedTail(b);
      TailsAgree(a, b);
      SortedUnique(a[1..], b[1..]);
      Rejoined(a, b);
    }
  }

  lemma SameLength<S(!new)>(a: seq<Migration<S>>, b: seq<Migration<S>>)
    requires multiset(a) == multiset(b)
    ensures |a| == |b|
  {
    assert |multiset(a)| == |a| && |multiset(b)| == |b|;
  }

  lemma TailsAgree<S(!new)>(a: seq<Migration<S>>, b: seq<Migration<S>>)
    requires a != [] && b != [] && a[0] == b[0] && multiset(a) == multiset(b)
    ensures multiset(a[1..]) == multiset(b[1..])
  {
    MultisetTail(a);
    MultisetTail(b);
  }

  lemma Rejoined<S(!new)>(a: seq<Migration<S>>, b: seq<Migration<S>>)
    requires a != [] && b != [] && a[0] == b[0] && a[1..] == b[1..]
    ensures a == b
  {
    assert a == [a[0]] + a[1..] && b == [b[0]] + b[1..];
  }

  lemma MultisetTail<S(!new)>(ms: seq<Migration<S>>)
    requires ms != []
    ensures multiset(ms[1..]) == multiset(ms) - multiset{ms[0]}
  {
    assert ms == [ms[0]] + ms[1..];
  }

  lemma SameFirst<S(!new)>(a: seq<Migration<S>>, b: seq<Migration<S>>)
    requires a != [] && b != [] && Sorted(a) && Sorted(b) && multiset(a) == multiset(b)
    ensures a[0] == b[0]
  {
    assert a[0] in multiset(b) && b[0] in multiset(a);
    var i :| 0 <= i < |b| && b[i] == a[0];
    var j :| 0 <= j < |a| && a[j] == b[0];
  }

  /** The order of registration does not matter: two orders of the same distinct versions give the same registry. */
  lemma OrderDoesNotMatter<S(!new)>(r1: seq<Migration<S>>, r2: seq<Migration<S>>)
    requires Distinct(r1) && Distinct(r2) && multiset(r1) == multiset(r2)
    ensures Registered(r1) == Registered(r2)
  {
    hide Registered, Sorted, Distinct;
    RegisteredSorted(r1);
    RegisteredSorted(r2);
    RegisteredContents(r1);
    RegisteredContents(r2);
    SortedUnique(Registered(r1), Registered(r2));
  }

  // ---------- one attempt ----------

  datatype DbState<!S> = DbState(schema: S, versions: set<int>)

  /** What goes wrong in one attempt: the version table cannot be read, or the migrations that `fails` picks fail. */
  datatype Trouble = Trouble(unreadable: bool, fails: int -> bool)

  /** Everything still pending above `current`, in order, until one fails. */
  function Attempted<S>(ms: seq<Migration<S>>, current: int, st: DbState<S>, fails: int -> bool): (DbState<S>, bool) {
    if ms == [] then (st, true)
    else if ms[0].version <= current then Attempted(ms[1..], current, st, fails)
    else if fails(ms[0].version) then (st, false)
    else Attempted(ms[1..], current, DbState(ms[0].up(st.schema), st.versions + {ms[0].version}), fails)
  }

  /** `COALESCE(MAX(version), 0)`. */
  ghost predicate IsCurrent(versions: set<int>, current: int) {
    if versions == {} then current == 0
    else current in versions && forall v :: v in versions ==> v <= current
  }

  class Database<!S(!new)> {
    var state: DbState<S>
    /** The state before the open transaction. */
    var saved: DbState<S>
    var inTransaction: bool

    constructor (schema: S)
      ensures state == DbState(schema, {}) && !inTransaction
    {
      state, saved, inTransaction := DbState(schema, {}), DbState(schema, {}), false;
    }

    method Begin()
      modifies this
      ensures state == old(state) && saved == old(state) && inTransaction
    {
      saved, inTransaction := state, true;
    }

    method Commit()
      modifies this
      ensures state == old(state) && !inTransaction
    {
      inTransaction := false;
    }

    method Rollback()
      requires inTransaction
      modifies this
      ensures state == old(saved) && !inTransaction
    {
      state, inTransaction := saved, false;
    }

    method CurrentVersion(unreadable: bool) returns (ok: bool, current: int)
      ensures ok == !unreadable
      ensures ok ==> IsCurrent(state.versions, current)
    {
      current := 0;
      if unreadable { return false, current; }
      ok := true;
      var rest := state.versions;
      var found := false;
      while rest != {}
        invariant rest <= state.versions && (!found ==> rest == state.versions && current == 0)
        invariant found ==> current in state.versions && forall v :: v in state.versions && v !in rest ==> v <= current
        decreases |rest|
      {
        SomeMember(rest);
        var v :| v in rest;
        if !found || v > current { current, found := v, true; }
        rest := rest - {v};
      }
    }
  }

  lemma SomeMember(s: set<int>)
    requires s != {}
    ensures exists v :: v in s
  {
    if forall v :: v !in s { assert false; }
  }

  class Runner<!S(!new)> {
    var migrations: seq<Migration<S>>

    constructor ()
      ensures migrations == []
    {
      migrations := [];
    }

    /** Registers a migration unless its version is taken, and keeps the registry sorted. */
    method RegisterMigration(m: Migration<S>) returns (ok: bool)
      requires Sorted(migrations)
      modifies this
      ensures ok <==> m.version !in VersionsOf(old(migrations))
      ensures migrations == if ok then Inserted(old(migrations), m) else old(migrations)
      ensures Sorted(migrations)
    {
      for i := 0 to |migrations|
        invariant forall j :: 0 <= j < i ==> migrations[j].version != m.version
      {
        if migrations[i].version == m.version { return false; }
      }
      InsertedSorted(migrations, m);
      SortIn(m);
      ok := true;
    }

    /** Registers migrations one after the other on an empty registry; how many were refused. */
    method RegisterAll(rs: seq<Migration<S>>) returns (refused: nat)
      requires migrations == []
      modifies this
      ensures migrations == Registered(rs) && |migrations| + refused == |rs|
    {
      refused := 0;
      for i := 0 to |rs|
        invariant migrations == Registered(rs[..i]) && Sorted(migrations) && |migrations| + refused == i
      {
        assert rs[..i + 1][..i] == rs[..i];
        InsertedContents(migrations, rs[i]);
        assert |multiset(Inserted(migrations, rs[i]))| == |migrations| + 1;
        var ok := RegisterMigration(rs[i]);
        if !ok { refused := refused + 1; }
      }
      assert rs[..|rs|] == rs;
    }

    /** Pushes the new migration at the end and moves it down to its place. */
    method SortIn(m: Migration<S>)
      requires Sorted(migrations)
      modifies this
      ensures migrations == Inserted(old(migrations), m)
    {
      hide VersionsOf, Inserted, Sorted;
      var at := |migrations|;
      ghost var below, above: seq<Migration<S>> := migrations, [];
      migrations := migrations + [m];
      while at > 0 && m.version < migrations[at - 1].version
        invariant 0 <= at == |below| && migrations == below + [m] + above
        invariant Sorted(below)
        invariant Inserted(old(migrations), m) == Inserted(below, m) + above
      {
        InsertedBelow(below, m);
        SwapDown(below, m, above);
        migrations := migrations[at := migrations[at - 1]][at - 1 := m];
        at := at - 1;
        above := [below[at]] + above;
        below := below[..at];
      }
      InsertedAbove(below, m);
    }

    /**
     * Applies what is pending, each migration in a transaction of its own; stops at the first that fails,
     * whatever that one had changed by then (`partial`).
     */
    method ApplyPending(db: Database<S>, trouble: Trouble, partial: DbState<S> -> DbState<S>) returns (ok: bool)
      requires !db.inTransaction
      modifies db
      ensures !db.inTransaction
      ensures Attempt(migrations, old(db.state), trouble, db.state, ok)
    {
      var current;
      ok, current := db.CurrentVersion(trouble.unreadable);
      if !ok { return; }
      ghost var goal := Attempted(migrations, current, db.state, trouble.fails);
      for i := 0 to |migrations|
        invariant !db.inTransaction
        invariant Attempted(migrations[i..], current, db.state, trouble.fails) == goal
      {
        var m := migrations[i];
        assert migrations[i..][0] == m && migrations[i..][1..] == migrations[i + 1..];
        if m.version <= current { continue; }
        db.Begin();
        if trouble.fails(m.version) {
          db.state := partial(db.state);
          db.Rollback();
          return false;
        }
        db.state := DbState(m.up(db.state.schema), db.state.versions + {m.version});
        db.Commit();
      }
      ok := true;
    }
  }

  lemma SwapDown<S(!new)>(below: seq<Migration<S>>, m: Migration<S>, above: seq<Migration<S>>)
    requires below != []
    ensures var n, ms := |below| - 1, below + [m] + above;
            && ms[n] == below[n]
            && ms[n + 1 := ms[n]][n := m] == below[..n] + [m] + ([below[n]] + above)
  {}

  lemma SortedFront<S(!new)>(ms: seq<Migration<S>>)
    requires Sorted(ms) && ms != []
    ensures Sorted(ms[..|ms| - 1])
  {}

  /** Inserting below the last migration leaves it last. */
  lemma {:induction false} InsertedBelow<S(!new)>(ms: seq<Migration<S>>, m: Migration<S>)
    requires ms != [] && Sorted(ms) && m.version < ms[|ms| - 1].version
    ensures Inserted(ms, m) == Inserted(ms[..|ms| - 1], m) + [ms[|ms| - 1]] && Sorted(ms[..|ms| - 1])
  {
    var n := |ms| - 1;
    SortedFront(ms);
    if m.version < ms[0].version {
      assert ms == ms[..n] + [ms[n]];
      assert [m] + ms == [m] + ms[..n] + [ms[n]];
    } else {
      SortedTail(ms);
      hide Sorted;
      InsertedBelow(ms[1..], m);
      var t := Inserted(ms[1..][..n - 1], m);
      assert ms[1..][..n - 1] == ms[..n][1..] && ms[1..][n - 1] == ms[n] && ms[..n][0] == ms[0];
      assert [ms[0]] + (t + [ms[n]]) == [ms[0]] + t + [ms[n]];
    }
  }

  /** Inserting above everything appends. */
  lemma {:induction false} InsertedAbove<S(!new)>(ms: seq<Migration<S>>, m: Migration<S>)
    requires Sorted(ms) && (ms != [] ==> m.version >= ms[|ms| - 1].version)
    ensures Inserted(ms, m) == ms + [m]
  {
    if ms != [] {
      InsertedAbove(ms[1..], m);
      assert ms == [ms[0]] + ms[1..];
    }
  }

  // ---------- any number of attempts ----------

  /** The schema after all of `ms`, each once, in order. */
  function Folded<S>(ms: seq<Migration<S>>, s0: S): S {
    if ms == [] then s0 else ms[|ms| - 1].up(Folded(ms[..|ms| - 1], s0))
  }

  /** The database after exactly the first `k` migrations. */
  ghost function AtPrefix<S(!new)>(ms: seq<Migration<S>>, s0: S, k: nat): DbState<S>
    requires k <= |ms|
  {
    DbState(Folded(ms[..k], s0), VersionsOf(ms[..k]))
  }

  ghost predicate Positive<S(!new)>(ms: seq<Migration<S>>) {
    forall i :: 0 <= i < |ms| ==> ms[i].version > 0
  }

  /** The first migration from `k` on that fails in this attempt. */
  function FirstFailure<S>(ms: seq<Migration<S>>, k: nat, fails: int -> bool): (j: nat)
    requires k <= |ms|
    ensures k <= j <= |ms| && (j < |ms| ==> fails(ms[j].version)) && forall i :: k <= i < j ==> !fails(ms[i].version)
    decreases |ms| - k
  {
    if k == |ms| || fails(ms[k].version) then k else FirstFailure(ms, k + 1, fails)
  }

  lemma PrefixStep<S(!new)>(ms: seq<Migration<S>>, s0: S, k: nat)
    requires k < |ms|
    ensures AtPrefix(ms, s0, k + 1) == DbState(ms[k].up(AtPrefix(ms, s0, k).schema), AtPrefix(ms, s0, k).versions + {ms[k].version})
  {
    var p, q := ms[..k], ms[..k + 1];
    assert q[..k] == p && q[k] == ms[k];
    forall v | v in VersionsOf(q) ensures v in VersionsOf(p) + {ms[k].version} {
      var i :| 0 <= i < |q| && q[i].version == v;
      if i < k { assert p[i].version == v; }
    }
    forall v | v in VersionsOf(p) ensures v in VersionsOf(q) {
      var i :| 0 <= i < |p| && p[i].version == v;
      assert q[i].version == v;
    }
    assert ms[k].version in VersionsOf(q);
  }

  /** With the first `k` migrations done, `current` separates them from the rest. */
  lemma CurrentSeparates<S(!new)>(ms: seq<Migration<S>>, s0: S, k: nat, current: int)
    requires Sorted(ms) && Positive(ms) && k <= |ms| && IsCurrent(AtPrefix(ms, s0, k).versions, current)
    ensures forall i :: 0 <= i < |ms| ==> (ms[i].version <= current <==> i < k)
  {
    var p := ms[..k];
    if k > 0 {
      assert p[k - 1].version in VersionsOf(p);
      var i :| 0 <= i < |p| && p[i].version == current;
      assert current == ms[k - 1].version;
    } else {
      assert VersionsOf(p) == {};
    }
  }

  /** The part of the loop that still has migrations to apply. */
  lemma {:induction false} ApplyRest<S(!new)>(ms: seq<Migration<S>>, s0: S, i: nat, current: int, fails: int -> bool)
    requires i <= |ms| && forall j :: i <= j < |ms| ==> ms[j].version > current
    ensures var j := FirstFailure(ms, i, fails);
            Attempted(ms[i..], current, AtPrefix(ms, s0, i), fails) == (AtPrefix(ms, s0, j), j == |ms|)
    decreases |ms| - i
  {
    hide AtPrefix;
    if i < |ms| {
      assert ms[i..][0] == ms[i] && ms[i..][1..] == ms[i + 1..];
      PrefixStep(ms, s0, i);
      ApplyRest(ms, s0, i + 1, current, fails);
    }
  }

  /** The part of the loop that passes over what is already applied. */
  lemma {:induction false} SkipDone<S(!new)>(ms: seq<Migration<S>>, i: nat, k: nat, current: int, st: DbState<S>, fails: int -> bool)
    requires i <= k <= |ms| && forall j :: i <= j < k ==> ms[j].version <= current
    ensures Attempted(ms[i..], current, st, fails) == Attempted(ms[k..], current, st, fails)
    decreases k - i
  {
    if i < k {
      assert ms[i..][0] == ms[i] && ms[i..][1..] == ms[i + 1..];
      SkipDone(ms, i + 1, k, current, st, fails);
    }
  }

  /** One attempt from a prefix ends at a prefix: the one before its first failure. */
  lemma AttemptResumes<S(!new)>(ms: seq<Migration<S>>, s0: S, k: nat, current: int, fails: int -> bool)
    requires Sorted(ms) && Positive(ms) && k <= |ms| && IsCurrent(AtPrefix(ms, s0, k).versions, current)
    ensures var j := FirstFailure(ms, k, fails);
            Attempted(ms, current, AtPrefix(ms, s0, k), fails) == (AtPrefix(ms, s0, j), j == |ms|)
  {
    CurrentSeparates(ms, s0, k, current);
    hide AtPrefix, IsCurrent;
    assert ms[0..] == ms;
    SkipDone(ms, 0, k, current, AtPrefix(ms, s0, k), fails);
    ApplyRest(ms, s0, k, current, fails);
  }

  /** What `ApplyPending` promises of one attempt. */
  ghost predicate Attempt<S(!new)>(ms: seq<Migration<S>>, st: DbState<S>, trouble: Trouble, st': DbState<S>, ok: bool) {
    if trouble.unreadable then st' == st && !ok
    else exists current :: IsCurrent(st.versions, current) && (st', ok) == Attempted(ms, current, st, trouble.fails)
  }

  /** A new database and a sequence of attempts on it, each failing where its own trouble says. */
  ghost predicate Run<S(!new)>(ms: seq<Migration<S>>, s0: S, faults: seq<Trouble>, sts: seq<DbState<S>>, oks: seq<bool>) {
    && |sts| == |faults| + 1 && |oks| == |faults| && sts[0] == DbState(s0, {})
    && forall i :: 0 <= i < |faults| ==> Attempt(ms, sts[i], faults[i], sts[i + 1], oks[i])
  }

  /**
   * After every attempt the recorded versions are those of a prefix of the registry and the schema is that prefix
   * applied once each, in order; an attempt that succeeds has reached the whole registry.
   */
  lemma {:induction false} RunsResume<S(!new)>(ms: seq<Migration<S>>, s0: S, faults: seq<Trouble>, sts: seq<DbState<S>>, oks: seq<bool>)
    returns (k: nat)
    requires Sorted(ms) && Positive(ms) && Run(ms, s0, faults, sts, oks)
    ensures k <= |ms| && sts[|faults|] == AtPrefix(ms, s0, k)
    ensures faults != [] ==> (oks[|faults| - 1] <==> k == |ms| && !faults[|faults| - 1].unreadable)
  {
    if faults == [] {
      k := 0;
      assert VersionsOf(ms[..0]) == {};
    } else {
      hide AtPrefix, Attempted;
      var n := |faults| - 1;
      var k0 := RunsResume(ms, s0, faults[..n], sts[..n + 1], oks[..n]);
      assert Attempt(ms, sts[n], faults[n], sts[n + 1], oks[n]);
      if faults[n].unreadable { return k0; }
      var fails := faults[n].fails;
      var current :| IsCurrent(sts[n].versions, current) && (sts[n + 1], oks[n]) == Attempted(ms, current, sts[n], fails);
      AttemptResumes(ms, s0, k0, current, fails);
      k := FirstFailure(ms, k0, fails);
    }
  }

  /** However many attempts failed before it, a successful one leaves every migration applied exactly once, in ascending order. */
  lemma SuccessMeansAllApplied<S(!new)>(ms: seq<Migration<S>>, s0: S, faults: seq<Trouble>, sts: seq<DbState<S>>, oks: seq<bool>)
    requires Sorted(ms) && Positive(ms) && Run(ms, s0, faults, sts, oks)
    requires faults != [] && oks[|faults| - 1]
    ensures sts[|faults|] == DbState(Folded(ms, s0), VersionsOf(ms))
  {
    var k := RunsResume(ms, s0, faults, sts, oks);
    assert ms[..|ms|] == ms;
  }

  /**
   * End to end: migrations with distinct positive versions, registered in any order, attempted any number of times
   * with any failures, and at last with success, leave the schema that all of them make in ascending order, once each.
   */
  lemma AnyOrderAnyFailures<S(!new)>(rs: seq<Migration<S>>, ascending: seq<Migration<S>>, s0: S,
                                     faults: seq<Trouble>, sts: seq<DbState<S>>, oks: seq<bool>)
    requires Distinct(rs) && Positive(ascending) && Sorted(ascending) && multiset(ascending) == multiset(rs)
    requires Run(Registered(rs), s0, faults, sts, oks) && faults != [] && oks[|faults| - 1]
    ensures sts[|faults|] == DbState(Folded(ascending, s0), VersionsOf(rs))
  {
    hide Registered, Run, Positive, Folded, Distinct;
    RegisteredSorted(rs);
    RegisteredContents(rs);
    SortedUnique(Registered(rs), ascending);
    SuccessMeansAllApplied(ascending, s0, faults, sts, oks);
  }

  // ---------- versions that are not positive ----------

  lemma {:induction false} OnlyAboveCurrent<S(!new)>(ms: seq<Migration<S>>, current: int, st: DbState<S>, fails: int -> bool)
    requires forall v :: !fails(v)
    ensures Attempted(ms, current, st, fails).0.versions == st.versions + set v | v in VersionsOf(ms) && v > current
  {
    if ms == [] {
      assert VersionsOf(ms) == {};
    } else {
      hide VersionsOf;
      TailVersions(ms);
      if ms[0].version <= current {
        OnlyAboveCurrent(ms[1..], current, st, fails);
      } else {
        OnlyAboveCurrent(ms[1..], current, DbState(ms[0].up(st.schema), st.versions + {ms[0].version}), fails);
      }
    }
  }

  /** A new database gets every registered migration exactly when no version is zero or negative. */
  lemma NewDatabaseCompleteExactly<S(!new)>(ms: seq<Migration<S>>, s0: S, st: DbState<S>, trouble: Trouble)
    requires Attempt(ms, DbState(s0, {}), trouble, st, true) && forall v :: !trouble.fails(v)
    ensures st.versions == VersionsOf(ms) <==> Positive(ms)
  {
    OnlyAboveCurrent(ms, 0, DbState(s0, {}), trouble.fails);
    if Positive(ms) {
      forall v | v in VersionsOf(ms) ensures v > 0 { var i :| 0 <= i < |ms| && ms[i].version == v; }
    }
    if st.versions == VersionsOf(ms) {
      forall i | 0 <= i < |ms| ensures ms[i].version > 0 { assert ms[i].version in VersionsOf(ms); }
    }
  }

  // ---------- what a run leaves in a journal ----------

  /** Every migration notes its version at the end of the schema and does nothing else. */
  ghost predicate Journals(ms: seq<Migration<seq<int>>>) {
    forall i, s :: 0 <= i < |ms| ==> ms[i].up(s) == s + [ms[i].version]
  }

  function Versions<S>(ms: seq<Migration<S>>): (vs: seq<int>)
    ensures |vs| == |ms| && forall i :: 0 <= i < |ms| ==> vs[i] == ms[i].version
  {
    seq(|ms|, i requires 0 <= i < |ms| => ms[i].version)
  }

  lemma {:induction false} FoldedJournal(ms: seq<Migration<seq<int>>>)
    requires Journals(ms)
    ensures Folded(ms, []) == Versions(ms)
  {
    if ms != [] {
      var n := |ms| - 1;
      FoldedJournal(ms[..n]);
      assert ms[n].up(Folded(ms[..n], [])) == Folded(ms[..n], []) + [ms[n].version];
      assert Versions(ms) == Versions(ms[..n]) + [ms[n].version];
    }
  }

  /**
   * Registered in any order and attempted with any failures until one attempt succeeds, journaling migrations leave
   * exactly their versions, in strictly ascending order, each once.
   */
  lemma JournalIsAscending(rs: seq<Migration<seq<int>>>, troubles: seq<Trouble>, sts: seq<DbState<seq<int>>>, oks: seq<bool>)
    requires Distinct(rs) && Journals(rs) && forall i :: 0 <= i < |rs| ==> rs[i].version > 0
    requires Run(Registered(rs), [], troubles, sts, oks) && troubles != [] && oks[|troubles| - 1]
    ensures var journal := sts[|troubles|].schema;
            && (forall i, j :: 0 <= i < j < |journal| ==> journal[i] < journal[j])
            && (set v | v in journal) == VersionsOf(rs) == sts[|troubles|].versions
  {
    var ms := Registered(rs);
    RegisteredSorted(rs);
    RegisteredContents(rs);
    forall i | 0 <= i < |ms| ensures ms[i] in rs { assert ms[i] in multiset(ms); }
    forall i, s | 0 <= i < |ms| ensures ms[i].up(s) == s + [ms[i].version] {
      var k :| 0 <= k < |rs| && rs[k] == ms[i];
    }
    forall i | 0 <= i < |ms| ensures ms[i].version > 0 {
      var k :| 0 <= k < |rs| && rs[k] == ms[i];
    }
    FoldedJournal(ms);
    hide Registered, Run;
    SuccessMeansAllApplied(ms, [], troubles, sts, oks);
    VersionsAreSet(ms);
  }

  lemma VersionsAreSet<S>(ms: seq<Migration<S>>)
    ensures VersionsOf(ms) == set v | v in Versions(ms)
  {
    forall v | v in VersionsOf(ms) ensures v in Versions(ms) {
      var i :| 0 <= i < |ms| && ms[i].version == v;
      assert Versions(ms)[i] == v;
    }
  }
}
