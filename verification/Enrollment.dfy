/** One-shot enrollment: peek, check, create the user and consume the token inside one transaction. */
module Enrollment {
  import opened Wrappers

  /** A row of `enrollment_tokens`, keyed by the token's hash. */
  datatype Token = Token(email: string, createdAt: int, expiresAt: int, consumedAt: Option<int>)

  /** A row of `users`, keyed by id. */
  datatype User = User(email: string, createdAt: int, passphraseHash: string, totpSecret: string)

  datatype State = State(users: map<string, User>, tokens: map<string, Token>)

  /** The stored hash of a raw token, or nothing if the text is not 32 bytes of hex. */
  type TokenHash = string -> Option<string>

  datatype Request = Request(token: string, email: string, passphraseHash: string, totpSecret: string, userId: string, now: int)

  /**
   * Where one request fails for reasons of its own: opening the transaction, preparing or running the lookup, hashing,
   * the insert, the update, the commit, or the audit entry after it. A lookup that fails while it runs finds nothing.
   */
  datatype Fault = NoFault | AtBegin | AtPrepare | AtLookup | AtHashing | AtInsert | AtConsume | AtCommit | AtAudit

  datatype Response = Created(userId: string, tokenHash: string) | InvalidToken | EmailTaken | Internal

  // ---------- the token table ----------

  /** The usable token behind a raw one: known, not expired, not consumed. */
  function Peeked(hash: TokenHash, st: State, raw: string, now: int): Option<(string, Token)> {
    var h := hash(raw);
    if h.None? || h.value !in st.tokens then None
    else
      var t := st.tokens[h.value];
      if t.expiresAt <= now || t.consumedAt.Some? then None else Some((h.value, t))
  }

  /** `UPDATE ... SET consumed_at_unix = ? WHERE token_hash = ?`, which does not look at the old value. */
  function Consumed(st: State, h: string, now: int): State {
    if h in st.tokens then st.(tokens := st.tokens[h := st.tokens[h].(consumedAt := Some(now))]) else st
  }

  /** No fault on the way of a token that is consumed on its own. */
  predicate Consumes(fault: Fault) {
    fault.NoFault? || fault.AtHashing? || fault.AtInsert? || fault.AtAudit?
  }

  predicate EmailRegistered(st: State, email: string) {
    exists u :: u in st.users && st.users[u].email == email
  }

  // ---------- the handler ----------

  class Database {
    var state: State
    var saved: State
    var inTransaction: bool

    constructor ()
      ensures state == State(map[], map[]) && !inTransaction
    {
      state, saved, inTransaction := State(map[], map[]), State(map[], map[]), false;
    }

    method Begin()
      modifies this
      ensures state == old(state) && saved == old(state) && inTransaction
    {
      saved, inTransaction := state, true;
    }

    method Commit()
      modifies this
      ensures state == old(state) && !inTransaction
    {
      inTransaction := false;
    }

    method Rollback()
      requires inTransaction
      modifies this
      ensures state == old(saved) && !inTransaction
    {
      state, inTransaction := saved, false;
    }

    /** Inserts a fresh token; a hash that is already stored makes it throw. */
    method PersistEnrollmentToken(h: string, email: string, now: int, expiresAt: int) returns (ok: bool)
      modifies this
      ensures ok <==> h !in old(state).tokens
      ensures inTransaction == old(inTransaction)
      ensures state == if ok then old(state).(tokens := old(state).tokens[h := Token(email, now, expiresAt, None)]) else old(state)
    {
      if h in state.tokens { return false; }
      state := state.(tokens := state.tokens[h := Token(email, now, expiresAt, None)]);
      ok := true;
    }

    /** Inserts the user unless its id or its email is taken. */
    method InsertUser(id: string, u: User, fault: Fault) returns (ok: bool)
      modifies this
      ensures ok <==> id !in old(state).users && !EmailRegistered(old(state), u.email) && !fault.AtInsert?
      ensures state == if ok then old(state).(users := old(state).users[id := u]) else old(state)
      ensures saved == old(saved) && inTransaction == old(inTransaction)
    {
      if id in state.users || EmailRegistered(state, u.email) || fault.AtInsert? { return false; }
      state := state.(users := state.users[id := u]);
      ok := true;
    }

    /** Marks the token consumed; false if no row was changed. */
    method MarkEnrollmentTokenConsumed(h: string, now: int, fault: Fault) returns (ok: bool)
      modifies this
      ensures ok <==> h in old(state).tokens && !fault.AtConsume?
      ensures state == if ok then Consumed(old(state), h, now) else old(state)
      ensures saved == old(saved) && inTransaction == old(inTransaction)
    {
      if h !in state.tokens || fault.AtConsume? { return false; }
      state := Consumed(state, h, now);
      ok := true;
    }

    /** Looks a raw token up without spending it. The caller holds the transaction. */
    method PeekEnrollmentToken(hash: TokenHash, raw: string, now: int, fault: Fault) returns (threw: bool, r: Option<(string, Token)>)
      ensures threw <==> hash(raw).Some? && fault.AtPrepare?
      ensures r == if threw || fault.AtLookup? then None else Peeked(hash, state, raw, now)
    {
      threw, r := false, None;
      var h := hash(raw);
      if h.None? { return; }
      if fault.AtPrepare? { return true, None; }
      if h.value !in state.tokens || fault.AtLookup? { return; }
      var t := state.tokens[h.value];
      if t.expiresAt <= now { return; }
      if t.consumedAt.Some? { return; }
      r := Some((h.value, t));
    }

    method HandleEnroll(hash: TokenHash, req: Request, fault: Fault) returns (r: Response)
      requires !inTransaction
      modifies this
      ensures !inTransaction
      ensures r == Answer(hash, old(state), req, fault)
      ensures state == if Commits(hash, old(state), req, fault) then Enrolled(hash, old(state), req) else old(state)
      // What that means, field by field.
      ensures r.Created? <==>
                && fault.NoFault? && hash(req.token).Some? && hash(req.token).value in old(state).tokens
                && var t := old(state).tokens[hash(req.token).value];
                   && t.email == req.email && req.now < t.expiresAt && t.consumedAt == None
                   && req.userId !in old(state).users
                   && forall u :: u in old(state).users ==> old(state).users[u].email != req.email
      ensures r.Created? ==>
                var u, h := req.userId, hash(req.token).value;
                && r == Created(u, h) && u in state.users && h in state.tokens
                && state.users[u].email == req.email && state.users[u].createdAt == req.now
                && state.users[u].passphraseHash == req.passphraseHash && state.users[u].totpSecret == req.totpSecret
                && state.tokens[h] == old(state).tokens[h].(consumedAt := Some(req.now))
                && (forall v :: v != u ==> (v in state.users <==> v in old(state).users))
                && (forall v :: v != u && v in state.users ==> state.users[v] == old(state).users[v])
                && (forall g :: g != h ==> (g in state.tokens <==> g in old(state).tokens))
                && (forall g :: g != h && g in state.tokens ==> state.tokens[g] == old(state).tokens[g])
    {
      if fault.AtBegin? { return Internal; }
      Begin();
      var threw, peeked := PeekEnrollmentToken(hash, req.token, req.now, fault);
      if threw { Rollback(); return Internal; }
      if peeked.None? || peeked.value.1.email != req.email {
        Rollback();
        if fault.AtAudit? { return Internal; }
        return InvalidToken;
      }
      if fault.AtHashing? { Rollback(); return Internal; }
      var ok := InsertUser(req.userId, User(req.email, req.now, req.passphraseHash, req.totpSecret), fault);
      if !ok { Rollback(); return EmailTaken; }
      ok := MarkEnrollmentTokenConsumed(peeked.value.0, req.now, fault);
      if !ok { Rollback(); return Internal; }
      if fault.AtCommit? { Rollback(); return Internal; }
      Commit();
      if fault.AtAudit? { return Internal; }
      r := Created(req.userId, peeked.value.0);
    }

    /** Consumes a token on its own, outside enrollment. */
    method ConsumeEnrollmentToken(hash: TokenHash, raw: string, now: int, fault: Fault) returns (threw: bool, r: Option<Token>)
      requires !inTransaction
      modifies this
      ensures !inTransaction
      ensures threw <==> hash(raw).Some? && (fault.AtBegin? || fault.AtPrepare?
                           || (fault.AtCommit? && Peeked(hash, old(state), raw, now).Some?))
      ensures r.Some? <==> Peeked(hash, old(state), raw, now).Some? && Consumes(fault)
      ensures r.Some? ==> state == Consumed(old(state), hash(raw).value, now) && r.value == state.tokens[hash(raw).value]
      ensures r.None? ==> state == old(state)
    {
      threw, r := false, None;
      var h := hash(raw);
      if h.None? { return; }
      if fault.AtBegin? { return true, None; }
      Begin();
      if fault.AtPrepare? { Rollback(); return true, None; }
      if h.value !in state.tokens || fault.AtLookup? { Rollback(); return; }
      var t := state.tokens[h.value];
      if t.expiresAt <= now { Rollback(); return; }
      if t.consumedAt.Some? { Rollback(); return; }
      var ok := MarkEnrollmentTokenConsumed(h.value, now, fault);
      if !ok { Rollback(); return; }
      if fault.AtCommit? { Rollback(); return true, None; }
      Commit();
      r := Some(t.(consumedAt := Some(now)));
    }
  }

  // ---------- what an enrollment means ----------

  /** The request shows a usable token that was issued for its email. */
  ghost predicate TokenMatches(hash: TokenHash, st: State, req: Request) {
    var p := Peeked(hash, st, req.token, req.now);
    p.Some? && p.value.1.email == req.email
  }

  /** And the new user does not collide with one that exists. */
  ghost predicate Admissible(hash: TokenHash, st: State, req: Request) {
    TokenMatches(hash, st, req) && req.userId !in st.users && !EmailRegistered(st, req.email)
  }

  /** The user is there and the token is spent. */
  ghost function Enrolled(hash: TokenHash, st: State, req: Request): State
    requires TokenMatches(hash, st, req)
  {
    var user := User(req.email, req.now, req.passphraseHash, req.totpSecret);
    Consumed(st.(users := st.users[req.userId := user]), hash(req.token).value, req.now)
  }

  /** The transaction reaches its commit. */
  ghost predicate Commits(hash: TokenHash, st: State, req: Request, fault: Fault) {
    Admissible(hash, st, req) && (fault.NoFault? || fault.AtAudit?)
  }

  /** What the client is told. */
  ghost function Answer(hash: TokenHash, st: State, req: Request, fault: Fault): Response {
    if fault.AtBegin? || (fault.AtPrepare? && hash(req.token).Some?) then Internal
    else if !TokenMatches(hash, st, req) || fault.AtLookup? then if fault.AtAudit? then Internal else InvalidToken
    else if fault.AtHashing? then Internal
    else if !Admissible(hash, st, req) || fault.AtInsert? then EmailTaken
    else if fault.NoFault? then Created(req.userId, hash(req.token).value)
    else Internal
  }

  /**
   * A refused attempt leaves both tables as they were exactly when it is not the one whose only failure is the
   * audit entry, which is written after the commit: that client is told of an error, but is enrolled.
   */
  lemma RefusalChangesNothingExactly(hash: TokenHash, st: State, req: Request, fault: Fault)
    requires !Answer(hash, st, req, fault).Created?
    ensures Next(hash, st, Enroll(req, fault)) == st <==> !(Admissible(hash, st, req) && fault.AtAudit?)
  {
    if Commits(hash, st, req, fault) {
      assert req.userId in Enrolled(hash, st, req).users;
    }
  }

  /** Such a client: the right token and email, and an audit entry that cannot be written. */
  lemma RefusedButEnrolled(hash: TokenHash, st: State, req: Request)
    requires st == State(map[], map["h" := Token("a@b.c", 0, 100, None)])
    requires hash(req.token) == Some("h") && req.email == "a@b.c" && req.now == 50
    ensures Answer(hash, st, req, AtAudit) == Internal
    ensures req.userId in Next(hash, st, Enroll(req, AtAudit)).users
  {}

  // ---------- runs ----------

  datatype Event = Persist(h: string, email: string, now: int, expiresAt: int)
                 | Enroll(req: Request, fault: Fault)
                 | Consume(raw: string, now: int, fault: Fault)

  /** An attempt that gets as far as its commit. */
  ghost predicate Succeeds(hash: TokenHash, st: State, e: Event) {
    e.Enroll? && Commits(hash, st, e.req, e.fault)
  }

  /** The state after an event, as the methods above promise it. */
  ghost function Next(hash: TokenHash, st: State, e: Event): State {
    match e
    case Persist(h, email, now, expiresAt) =>
      if h in st.tokens then st else st.(tokens := st.tokens[h := Token(email, now, expiresAt, None)])
    case Enroll(req, fault) => if Succeeds(hash, st, e) then Enrolled(hash, st, req) else st
    case Consume(raw, now, fault) =>
      if Peeked(hash, st, raw, now).Some? && Consumes(fault) then Consumed(st, hash(raw).value, now) else st
  }

  ghost function After(hash: TokenHash, es: seq<Event>): State {
    if es == [] then State(map[], map[]) else Next(hash, After(hash, es[..|es| - 1]), es[|es| - 1])
  }

  /** Which token each committed enrollment spent. */
  ghost function Links(hash: TokenHash, es: seq<Event>): map<string, string> {
    if es == [] then map[]
    else
      var init, e := es[..|es| - 1], es[|es| - 1];
      if Succeeds(hash, After(hash, init), e) then Links(hash, init)[e.req.userId := hash(e.req.token).value] else Links(hash, init)
  }

  /** Users and the tokens that made them are in one-to-one correspondence, with matching email and time, before they expired. */
  ghost predicate OneToOne(st: State, links: map<string, string>) {
    && links.Keys == st.users.Keys
    && (forall u :: u in links ==>
          && links[u] in st.tokens && st.tokens[links[u]].email == st.users[u].email
          && st.tokens[links[u]].consumedAt == Some(st.users[u].createdAt)
          && st.users[u].createdAt < st.tokens[links[u]].expiresAt)
    && (forall u, v :: u in links && v in links && links[u] == links[v] ==> u == v)
  }

  /** No event undoes or rewrites a consumption, or forgets a token. */
  ghost predicate ConsumptionKept(st: State, st': State) {
    forall h :: h in st.tokens ==>
      && h in st'.tokens && st'.tokens[h].email == st.tokens[h].email && st'.tokens[h].expiresAt == st.tokens[h].expiresAt
      && (st.tokens[h].consumedAt.Some? ==> st'.tokens[h] == st.tokens[h])
  }

  lemma NextKeepsConsumption(hash: TokenHash, st: State, e: Event)
    ensures ConsumptionKept(st, Next(hash, st, e))
  {}

  /** Although the consuming update does not test for NULL, no spent token is ever spent again. */
  lemma {:induction false} ConsumptionIsForEver(hash: TokenHash, es: seq<Event>, n: nat)
    requires n <= |es|
    ensures ConsumptionKept(After(hash, es[..n]), After(hash, es))
  {
    if n == |es| {
      assert es[..n] == es;
    } else {
      hide Next;
      assert es[..|es| - 1][..n] == es[..n];
      ConsumptionIsForEver(hash, es[..|es| - 1], n);
      NextKeepsConsumption(hash, After(hash, es[..|es| - 1]), es[|es| - 1]);
    }
  }

  lemma EnrollmentExtendsLinks(hash: TokenHash, st: State, links: map<string, string>, e: Event)
    requires OneToOne(st, links) && Succeeds(hash, st, e)
    ensures OneToOne(Next(hash, st, e), links[e.req.userId := hash(e.req.token).value])
  {
    var h := hash(e.req.token).value;
    assert forall u :: u in links ==> links[u] != h;
  }

  lemma OthersKeepLinks(hash: TokenHash, st: State, links: map<string, string>, e: Event)
    requires OneToOne(st, links) && !Succeeds(hash, st, e)
    ensures OneToOne(Next(hash, st, e), links)
  {
    NextKeepsConsumption(hash, st, e);
  }

  /** Over every run, enrolled users correspond one-to-one to the tokens their enrollments spent. */
  lemma {:induction false} UsersMatchTokens(hash: TokenHash, es: seq<Event>)
    ensures OneToOne(After(hash, es), Links(hash, es))
  {
    if es != [] {
      hide Next, OneToOne, Succeeds;
      var init, e := es[..|es| - 1], es[|es| - 1];
      UsersMatchTokens(hash, init);
      if Succeeds(hash, After(hash, init), e) {
        EnrollmentExtendsLinks(hash, After(hash, init), Links(hash, init), e);
      } else {
        OthersKeepLinks(hash, After(hash, init), Links(hash, init), e);
      }
    } else {
      assert OneToOne(State(map[], map[]), map[]);
    }
  }

  /** One shot: two committed enrollments of a run never show the same token. */
  lemma OneShot(hash: TokenHash, es: seq<Event>, i: nat, j: nat)
    requires i < j < |es|
    requires Succeeds(hash, After(hash, es[..i]), es[i]) && Succeeds(hash, After(hash, es[..j]), es[j])
    ensures hash(es[i].req.token) != hash(es[j].req.token)
    ensures es[i].req.userId != es[j].req.userId && es[i].req.email != es[j].req.email
  {
    var a, b := After(hash, es[..i + 1]), After(hash, es[..j]);
    assert es[..i + 1][..i] == es[..i] && es[..j][..i + 1] == es[..i + 1];
    ConsumptionIsForEver(hash, es[..j], i + 1);
    UsersAreKept(hash, es[..j], i + 1);
    assert a == Enrolled(hash, After(hash, es[..i]), es[i].req);
    assert a.tokens[hash(es[i].req.token).value].consumedAt.Some?;
    assert b.users[es[i].req.userId].email == es[i].req.email;
  }

  lemma {:induction false} UsersAreKept(hash: TokenHash, es: seq<Event>, n: nat)
    requires n <= |es|
    ensures var before, after := After(hash, es[..n]).users, After(hash, es).users;
            forall u :: u in before ==> u in after && after[u] == before[u]
  {
    if n == |es| {
      assert es[..n] == es;
    } else {
      assert es[..|es| - 1][..n] == es[..n];
      UsersAreKept(hash, es[..|es| - 1], n);
    }
  }
}
