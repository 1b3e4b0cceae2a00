/** Session tokens: minted, validated and touched, revoked, and expired by the clock. */
module Sessions {
  import opened BigEndian
  import opened Wrappers

  const ABSOLUTE_TIMEOUT := 28800
  const IDLE_TIMEOUT := 28800

  /** A row of `sessions`, keyed by the hex hash of the token. */
  datatype Session = Session(userId: string, createdAt: int, lastSeen: int, expiresAt: int, revoked: bool)

  type Table = map<string, Session>

  /** The 32 random bytes behind a token. */
  type Secret = seq<byte>

  /** The user behind a session row that may be used at `now`. */
  function Valid(t: Table, id: string, now: int): Option<string> {
    if id !in t then None
    else
      var s := t[id];
      if s.revoked then None
      else if s.expiresAt <= now then None
      else if s.lastSeen <= now - IDLE_TIMEOUT then None
      else Some(s.userId)
  }

  function Minted(t: Table, id: string, userId: string, now: int): Table {
    if id in t then t else t[id := Session(userId, now, now, now + ABSOLUTE_TIMEOUT, false)]
  }

  function Touched(t: Table, id: string, now: int): Table {
    if Valid(t, id, now).Some? then t[id := t[id].(lastSeen := now)] else t
  }

  function Revoked(t: Table, id: string): Table {
    if id in t then t[id := t[id].(revoked := true)] else t
  }

  /**
   * Where the database fails in one call, if it does. A lookup that fails while it runs finds nothing, and the code does
   * not look at whether the update succeeded.
   */
  datatype Fault = NoFault | AtBegin | AtPrepare | AtLookup | AtUpdate | AtCommit

  class SessionStore {
    const encode: Secret -> string
    const decode: string -> Secret
    const hexHash: Secret -> string
    var sessions: Table

    constructor (encode: Secret -> string, decode: string -> Secret, hexHash: Secret -> string)
      ensures this.encode == encode && this.decode == decode && this.hexHash == hexHash && sessions == map[]
    {
      this.encode, this.decode, this.hexHash, sessions := encode, decode, hexHash, map[];
    }

    /** The row a raw token stands for, or nothing if it is not the text of 32 bytes. */
    function IdOf(raw: string): Option<string> {
      if |decode(raw)| == 32 then Some(hexHash(decode(raw))) else None
    }

    /** Inserts the session of a fresh secret; an id that is already stored makes it throw, like a failing insert. */
    method MintSession(secret: Secret, userId: string, now: int, fails: bool) returns (token: Option<string>)
      requires |secret| == 32
      modifies this
      ensures token == if fails || hexHash(secret) in old(sessions) then None else Some(encode(secret))
      ensures sessions == if fails then old(sessions) else Minted(old(sessions), hexHash(secret), userId, now)
      ensures token.Some? ==> sessions == old(sessions)[hexHash(secret) := Session(userId, now, now, now + 8 * 3600, false)]
    {
      var id := hexHash(secret);
      if fails || id in sessions { return None; }
      var expiresAt := now + ABSOLUTE_TIMEOUT;
      sessions := sessions[id := Session(userId, now, now, expiresAt, false)];
      token := Some(encode(secret));
    }

    method ValidateAndTouchSession(raw: string, now: int, fault: Fault) returns (threw: bool, user: Option<string>)
      modifies this
      ensures IdOf(raw).None? ==> !threw && user.None? && sessions == old(sessions)
      ensures IdOf(raw).Some? ==>
                var valid := Valid(old(sessions), IdOf(raw).value, now);
                && threw == (fault.AtBegin? || fault.AtPrepare? || (fault.AtCommit? && valid.Some?))
                && user == (if threw || fault.AtLookup? then None else valid)
                && sessions == if user.Some? && !fault.AtUpdate? then Touched(old(sessions), IdOf(raw).value, now) else old(sessions)
      ensures user.Some? ==>
                var id := IdOf(raw).value;
                && id in old(sessions) && user.value == old(sessions)[id].userId && !old(sessions)[id].revoked
                && sessions == if fault.AtUpdate? then old(sessions) else old(sessions)[id := old(sessions)[id].(lastSeen := now)]
    {
      threw, user := false, None;
      var secret := decode(raw);
      if |secret| != 32 { return; }
      var id := hexHash(secret);
      if fault.AtBegin? || fault.AtPrepare? { return true, None; }
      if id !in sessions || fault.AtLookup? { return; }
      var s := sessions[id];
      if s.revoked { return; }
      if s.expiresAt <= now { return; }
      if s.lastSeen <= now - IDLE_TIMEOUT { return; }
      var saved := sessions;
      if !fault.AtUpdate? { sessions := sessions[id := s.(lastSeen := now)]; }
      if fault.AtCommit? {
        sessions := saved;
        return true, None;
      }
      user := Some(s.userId);
    }

    /**
     * Marks the session revoked, unless the statement cannot be prepared, which throws. When the update fails while it
     * runs nothing changes, and the answer is what the connection's change count still says from the statement before.
     */
    method RevokeSession(raw: string, fault: Fault, staleCount: nat) returns (threw: bool, ok: bool)
      modifies this
      ensures threw <==> IdOf(raw).Some? && fault.AtPrepare?
      ensures ok <==> IdOf(raw).Some? && !threw && if fault.AtUpdate? then staleCount > 0 else IdOf(raw).value in old(sessions)
      ensures sessions == if IdOf(raw).Some? && !threw && !fault.AtUpdate? then Revoked(old(sessions), IdOf(raw).value) else old(sessions)
      ensures ok && !fault.AtUpdate? ==> IdOf(raw).value in sessions && sessions[IdOf(raw).value].revoked
    {
      threw, ok := false, false;
      var secret := decode(raw);
      if |secret| != 32 { return; }
      if fault.AtPrepare? { return true, false; }
      if fault.AtUpdate? { return false, staleCount > 0; }
      var id := hexHash(secret);
      ok := id in sessions;
      if ok { sessions := sessions[id := sessions[id].(revoked := true)]; }
    }
  }

  // ---------- runs ----------

  /**
   * A call on the session behind a key, which is the secret for the caller and its hash for the table.
   * Calls whose database statements fail change nothing and are not events.
   */
  datatype Event<Key> = Mint(key: Key, userId: string, now: int) | Validate(key: Key, now: int) | Revoke(key: Key, now: int)

  function Next(t: Table, e: Event<string>): Table {
    match e
    case Mint(id, userId, now) => Minted(t, id, userId, now)
    case Validate(id, now) => Touched(t, id, now)
    case Revoke(id, _) => Revoked(t, id)
  }

  function After(es: seq<Event<string>>): Table {
    if es == [] then map[] else Next(After(es[..|es| - 1]), es[|es| - 1])
  }

  /** The clock does not run backwards. */
  ghost predicate Ordered(es: seq<Event<string>>) {
    forall i, j :: 0 <= i < j < |es| ==> es[i].now <= es[j].now
  }

  /** Event `i` is the first to mint the session `id`. */
  ghost predicate FirstMint(es: seq<Event<string>>, id: string, i: nat) {
    && i < |es| && es[i].Mint? && es[i].key == id
    && forall j :: 0 <= j < i ==> !(es[j].Mint? && es[j].key == id)
  }

  ghost predicate RevokedAfter(es: seq<Event<string>>, id: string, i: nat) {
    exists j :: i < j < |es| && es[j].Revoke? && es[j].key == id
  }

  /** What a stored session row records of the run that led to it. */
  ghost predicate Explains(es: seq<Event<string>>, id: string, i: nat, s: Session) {
    && FirstMint(es, id, i)
    && s.userId == es[i].userId && s.createdAt == es[i].now && s.expiresAt == es[i].now + ABSOLUTE_TIMEOUT
    && (s.revoked <==> RevokedAfter(es, id, i))
    && s.createdAt <= s.lastSeen && exists k :: i <= k < |es| && es[k].now == s.lastSeen
  }

  /** A row is there exactly when the session was minted, and it tells the mint, the last use and any revocation. */
  lemma {:induction false} RowsAreExplained(es: seq<Event<string>>, id: string)
    requires Ordered(es)
    ensures id in After(es) ==> exists i: nat :: Explains(es, id, i, After(es)[id])
    ensures id !in After(es) ==> forall i: nat :: !FirstMint(es, id, i)
  {
    if es != [] {
      var n, e := |es| - 1, es[|es| - 1];
      var init := es[..n];
      RowsAreExplained(init, id);
      if id in After(init) {
        var i: nat :| Explains(init, id, i, After(init)[id]);
        StillExplained(es, id, i, After(init)[id], After(es)[id]);
      } else if id in After(es) {
        assert FirstMint(es, id, n) by {
          if j: nat :| j < n && es[j].Mint? && es[j].key == id { MintIsSeen(init, id, j); }
        }
        assert es[n].now == After(es)[id].lastSeen;
        assert Explains(es, id, n, After(es)[id]);
      } else {
        forall i: nat ensures !FirstMint(es, id, i) {
          if FirstMint(es, id, i) && i < n { assert FirstMint(init, id, i); }
        }
      }
    }
  }

  /** If anything minted the session, something minted it first. */
  lemma {:induction false} MintIsSeen(es: seq<Event<string>>, id: string, j: nat)
    requires j < |es| && es[j].Mint? && es[j].key == id
    ensures exists i: nat :: FirstMint(es, id, i)
  {
    if k: nat :| k < j && es[k].Mint? && es[k].key == id {
      MintIsSeen(es, id, k);
    } else {
      assert FirstMint(es, id, j);
    }
  }

  lemma StillExplained(es: seq<Event<string>>, id: string, i: nat, s: Session, s': Session)
    requires es != [] && Ordered(es) && Explains(es[..|es| - 1], id, i, s)
    requires s' == (match es[|es| - 1]
                    case Mint(_, _, _) => s
                    case Validate(x, now) =>
                      if x == id && !s.revoked && s.expiresAt > now && s.lastSeen > now - IDLE_TIMEOUT
                      then s.(lastSeen := now) else s
                    case Revoke(x, _) => if x == id then s.(revoked := true) else s)
    ensures Explains(es, id, i, s')
  {
    var n, init := |es| - 1, es[..|es| - 1];
    var k :| i <= k < n && init[k].now == s.lastSeen;
    assert es[k].now == s.lastSeen && es[n].now >= es[k].now;
    if RevokedAfter(init, id, i) {
      var j :| i < j < n && init[j].Revoke? && init[j].key == id;
      assert es[j] == init[j];
    }
    if RevokedAfter(es, id, i) {
      var j :| i < j < |es| && es[j].Revoke? && es[j].key == id;
      if j < n { assert init[j] == es[j]; }
    }
  }

  /** A token may be used at `now`: minted, not revoked since, and less than eight hours old. */
  ghost predicate Usable(es: seq<Event<string>>, id: string, now: int) {
    exists i: nat :: FirstMint(es, id, i) && !RevokedAfter(es, id, i) && now < es[i].now + 8 * 3600
  }

  lemma OneFirstMint(es: seq<Event<string>>, id: string, i: nat, j: nat)
    requires FirstMint(es, id, i) && FirstMint(es, id, j)
    ensures i == j
  {}

  /** A row that explains a run passes the tests of Valid exactly when neither a revocation nor eight hours have passed. */
  lemma RowTellsValidity(es: seq<Event<string>>, t: Table, id: string, i: nat, now: int)
    requires id in t && Explains(es, id, i, t[id]) && forall k :: 0 <= k < |es| ==> es[k].now <= now
    ensures Valid(t, id, now).Some? <==> !RevokedAfter(es, id, i) && now < es[i].now + ABSOLUTE_TIMEOUT
    ensures Valid(t, id, now).Some? ==> Valid(t, id, now).value == es[i].userId
    ensures t[id].createdAt <= t[id].lastSeen <= now
    ensures t[id].expiresAt > now ==> t[id].lastSeen > now - IDLE_TIMEOUT
  {
    hide RevokedAfter;
    var k :| i <= k < |es| && es[k].now == t[id].lastSeen;
  }

  /** In every run, a token validates exactly when it is usable; the idle test never decides. */
  lemma ValidatesExactly(es: seq<Event<string>>, id: string, now: int)
    requires Ordered(es) && forall k :: 0 <= k < |es| ==> es[k].now <= now
    ensures Valid(After(es), id, now).Some? <==> Usable(es, id, now)
    ensures Valid(After(es), id, now).Some? ==> exists i: nat :: FirstMint(es, id, i) && Valid(After(es), id, now).value == es[i].userId
    ensures id in After(es) ==> After(es)[id].createdAt <= After(es)[id].lastSeen <= now
    ensures id in After(es) && After(es)[id].expiresAt > now ==> After(es)[id].lastSeen > now - IDLE_TIMEOUT
  {
    hide Valid, After, RevokedAfter, Ordered;
    RowsAreExplained(es, id);
    if id in After(es) {
      var i: nat :| Explains(es, id, i, After(es)[id]);
      RowTellsValidity(es, After(es), id, i, now);
      if Usable(es, id, now) {
        var j: nat :| FirstMint(es, id, j) && !RevokedAfter(es, id, j) && now < es[j].now + ABSOLUTE_TIMEOUT;
        OneFirstMint(es, id, i, j);
      }
    } else {
      AbsentIsInvalid(After(es), id, now);
    }
  }

  lemma AbsentIsInvalid(t: Table, id: string, now: int)
    requires id !in t
    ensures Valid(t, id, now).None?
  {}

  /** The calls as the table sees them. */
  function Hashed(hexHash: Secret -> string, calls: seq<Event<Secret>>): (es: seq<Event<string>>)
    ensures |es| == |calls|
    ensures forall k :: 0 <= k < |es| ==>
              es[k].now == calls[k].now && (es[k].Mint? <==> calls[k].Mint?) && es[k].key == hexHash(calls[k].key)
  {
    seq(|calls|, k requires 0 <= k < |calls| =>
      match calls[k]
      case Mint(secret, userId, now) => Mint(hexHash(secret), userId, now)
      case Validate(secret, now) => Validate(hexHash(secret), now)
      case Revoke(secret, now) => Revoke(hexHash(secret), now))
  }

  ghost predicate Collide(hexHash: Secret -> string, a: Secret, b: Secret) {
    a != b && hexHash(a) == hexHash(b)
  }

  /** A secret that validates was minted less than eight hours ago, or it collides with one that was. */
  lemma ValidTokenWasMinted(hexHash: Secret -> string, calls: seq<Event<Secret>>, secret: Secret, now: int) returns (i: nat)
    requires Ordered(Hashed(hexHash, calls)) && forall k :: 0 <= k < |calls| ==> calls[k].now <= now
    requires Valid(After(Hashed(hexHash, calls)), hexHash(secret), now).Some?
    ensures i < |calls| && calls[i].Mint? && now < calls[i].now + ABSOLUTE_TIMEOUT
    ensures calls[i].key == secret || Collide(hexHash, calls[i].key, secret)
  {
    hide Valid, After, Ordered, RevokedAfter;
    var es, id := Hashed(hexHash, calls), hexHash(secret);
    ValidatesExactly(es, id, now);
    i :| FirstMint(es, id, i) && !RevokedAfter(es, id, i) && now < es[i].now + ABSOLUTE_TIMEOUT;
  }
}
