/** The audit payload sanitizer: a recursive walk with an early exit, against a condition on every path of the value. */
module Sanitizer {
  import BE = BigEndian
  import opened Wrappers

  const MAX_DEPTH := 8
  const MAX_TOTAL_BYTES := 65536

  datatype Field = Field(key: string, value: Json)

  /** A JSON value. Floats are kept only as far as the walk looks at them; `Other` is a kind JSON text cannot express. */
  datatype Json =
    | Null
    | Str(s: string)
    | Integer(n: int)
    | Float(finite: bool)
    | Boolean(b: bool)
    | Arr(elements: seq<Json>)
    | Obj(fields: seq<Field>)
    | Other

  // ---------- keys ----------

  const ALLOWED_KEYS: set<string> := {
    "userid", "sessionid", "accountid", "transactionid", "entityid", "tokenid", "subjectid", "actoruserid",
    "domain", "outcome", "action", "kind", "reason", "version", "seq", "ts", "count", "added", "modified", "removed",
    "httpstatus", "errorcode", "transports"
  }

  const DENY_KEY_SUBSTRINGS: seq<string> := [
    "password", "passphrase", "secret", "token", "cookie", "dek", "kek", "keksalt", "credentialpublickey", "signature", "pem", "key"
  ]

  function LowerChar(c: char): char {
    if 'A' <= c <= 'Z' then (c as int + 32) as char else c
  }

  function Lowered(s: string): (l: string)
    ensures |l| == |s|
  {
    seq(|s|, i requires 0 <= i < |s| => LowerChar(s[i]))
  }

  predicate Contains(s: string, sub: string) {
    exists i :: 0 <= i <= |s| && sub <= s[i..]
  }

  predicate KeyAllowed(key: string) {
    var k := Lowered(key);
    k in ALLOWED_KEYS || forall sub :: sub in DENY_KEY_SUBSTRINGS ==> !Contains(k, sub)
  }

  // ---------- token shapes ----------

  predicate IsHex(c: char) { '0' <= c <= '9' || 'a' <= c <= 'f' || 'A' <= c <= 'F' }

  predicate IsBase64(c: char) {
    'A' <= c <= 'Z' || 'a' <= c <= 'z' || '0' <= c <= '9' || c == '+' || c == '/' || c == '_' || c == '-'
  }

  predicate HexLike(s: string) {
    |s| >= 32 && forall i :: 0 <= i < |s| ==> IsHex(s[i])
  }

  /** At least 32 characters: alphabet characters, then `k` padding characters. */
  predicate PaddedBy(s: string, k: nat) {
    && 32 <= |s| && k <= |s|
    && (forall i :: 0 <= i < |s| - k ==> IsBase64(s[i]))
    && (forall i :: |s| - k <= i < |s| ==> s[i] == '=')
  }

  predicate Base64UrlLike(s: string) {
    PaddedBy(s, 0) || PaddedBy(s, 1) || PaddedBy(s, 2)
  }

  predicate LooksLikeToken(s: string) {
    |s| >= 32 && (HexLike(s) || Base64UrlLike(s))
  }

  /** The hex test adds nothing: a long hex string already looks like base 64. */
  lemma HexTestIsRedundant(s: string)
    ensures LooksLikeToken(s) <==> Base64UrlLike(s)
  {
    if HexLike(s) { assert PaddedBy(s, 0); }
  }

  /** The shape as it is described: at least 32 characters of the alphabet, and then at most two of padding. */
  predicate Described(s: string) {
    exists k: nat :: k <= 2 && k <= |s| && |s| - k >= 32 && PaddedBy(s, k)
  }

  /** Thirty characters of the alphabet and two of padding look like a token, though the description wants 32 before the padding. */
  lemma PaddingCounts(s: string)
    requires |s| == 32 && (forall i :: 0 <= i < 30 ==> IsBase64(s[i])) && s[30] == '=' && s[31] == '='
    ensures LooksLikeToken(s) && !Described(s)
  {
    assert PaddedBy(s, 2);
    assert !IsBase64(s[31]);
  }

  method ToLower(s: string) returns (lower: string)
    ensures lower == Lowered(s)
  {
    lower := s;
    for i := 0 to |s|
      invariant lower == Lowered(s)[..i] + s[i..]
    {
      lower := lower[i := LowerChar(lower[i])];
    }
  }

  method IsBase64UrlLike(s: string) returns (ok: bool)
    ensures ok <==> Base64UrlLike(s)
  {
    if |s| < 32 { return false; }
    var len, padding := |s|, 0;
    while padding < 2 && len > 0 && s[len - 1] == '='
      invariant 0 <= padding <= 2 && len == |s| - padding
      invariant forall i :: len <= i < |s| ==> s[i] == '='
    {
      len, padding := len - 1, padding + 1;
    }
    for i := 0 to len
      invariant forall j :: 0 <= j < i ==> IsBase64(s[j])
    {
      if !IsBase64(s[i]) { return false; }
    }
    assert PaddedBy(s, padding);
    ok := true;
  }

  method IsHexLike(s: string) returns (ok: bool)
    ensures ok <==> HexLike(s)
  {
    if |s| < 32 { return false; }
    for i := 0 to |s|
      invariant forall j :: 0 <= j < i ==> IsHex(s[j])
    {
      if !IsHex(s[i]) { return false; }
    }
    ok := true;
  }

  // ---------- the walk ----------

  /** Where a value sits: which child to take at each level. */
  type Path = seq<nat>

  datatype Reason = TooDeep | DeniedKey | TokenShape | NonFinite | UnsupportedKind

  datatype Walk = Clean | Offence(reason: Reason, at: Path)

  function WalkValue(v: Json, depth: nat, path: Path): Walk
    decreases v, 1
  {
    match v
    case Null => Clean
    case Str(s) => if LooksLikeToken(s) then Offence(TokenShape, path) else Clean
    case Integer(_) => Clean
    case Float(finite) => if finite then Clean else Offence(NonFinite, path)
    case Boolean(_) => Clean
    case Arr(elements) => if depth > MAX_DEPTH then Offence(TooDeep, path) else WalkElements(elements, 0, depth, path)
    case Obj(fields) => if depth > MAX_DEPTH then Offence(TooDeep, path) else WalkFields(fields, 0, depth, path)
    case Other => Offence(UnsupportedKind, path)
  }

  /** The array loop from element `i` on. */
  function WalkElements(es: seq<Json>, i: nat, depth: nat, path: Path): Walk
    requires i <= |es|
    decreases es, 0, |es| - i
  {
    if i == |es| then Clean
    else
      var r := WalkValue(es[i], depth + 1, path + [i]);
      if r.Clean? then WalkElements(es, i + 1, depth, path) else r
  }

  /** The object loop from field `i` on. */
  function WalkFields(fs: seq<Field>, i: nat, depth: nat, path: Path): Walk
    requires i <= |fs|
    decreases fs, 0, |fs| - i
  {
    if i == |fs| then Clean
    else if !KeyAllowed(fs[i].key) then Offence(DeniedKey, path)
    else
      var r := WalkValue(fs[i].value, depth + 1, path + [i]);
      if r.Clean? then WalkFields(fs, i + 1, depth, path) else r
  }

  datatype Verdict = Accepted | NotAnObject | Offending(reason: Reason, at: Path) | TooLarge | InternalError

  /** How a payload is written out: `None` when serializing it throws. */
  type Dump = Json -> Option<BE.Bytes>

  function Sanitize(details: Json, dump: Dump): Verdict {
    if !details.Obj? then NotAnObject
    else
      match WalkValue(details, 0, [])
      case Offence(reason, at) => Offending(reason, at)
      case Clean =>
        var text := dump(details);
        if text.None? then InternalError
        else if |text.value| > MAX_TOTAL_BYTES then TooLarge
        else Accepted
  }

  // ---------- what it accepts ----------

  function Children(v: Json): seq<Json> {
    match v
    case Arr(elements) => elements
    case Obj(fields) => seq(|fields|, i requires 0 <= i < |fields| => fields[i].value)
    case _ => []
  }

  /** The value at a path, if the path leads anywhere. */
  function At(v: Json, p: Path): Option<Json>
    decreases p
  {
    if p == [] then Some(v)
    else if p[0] < |Children(v)| then At(Children(v)[p[0]], p[1..])
    else None
  }

  /** What is wrong with a value at this depth, taken by itself. */
  predicate Offends(v: Json, depth: nat, reason: Reason) {
    match reason
    case TooDeep => (v.Arr? || v.Obj?) && depth > MAX_DEPTH
    case DeniedKey => v.Obj? && exists i :: 0 <= i < |v.fields| && !KeyAllowed(v.fields[i].key)
    case TokenShape => v.Str? && LooksLikeToken(v.s)
    case NonFinite => v.Float? && !v.finite
    case UnsupportedKind => v.Other?
  }

  /** Nothing is wrong with a value at this depth, taken by itself. */
  ghost predicate Sound(v: Json, depth: nat) {
    forall reason :: !Offends(v, depth, reason)
  }

  ghost predicate SoundAt(v: Json, depth: nat, p: Path) {
    At(v, p).Some? ==> Sound(At(v, p).value, depth + |p|)
  }

  /** No value on any path offends. */
  ghost predicate CleanEverywhere(v: Json, depth: nat) {
    forall p: Path :: SoundAt(v, depth, p)
  }

  /** A value is clean everywhere exactly when it is clean itself and its children are, one level down. */
  lemma CleanByParts(v: Json, depth: nat)
    ensures CleanEverywhere(v, depth) <==>
            Sound(v, depth) && forall i :: 0 <= i < |Children(v)| ==> CleanEverywhere(Children(v)[i], depth + 1)
  {
    hide Sound, Children;
    var cs := Children(v);
    if CleanEverywhere(v, depth) {
      assert SoundAt(v, depth, []);
      forall i | 0 <= i < |cs| ensures CleanEverywhere(cs[i], depth + 1) {
        var c, below := cs[i], depth + 1;
        forall p: Path ensures SoundAt(c, below, p) {
          var q := [i] + p;
          assert q[1..] == p && At(v, q) == At(cs[i], p);
          assert SoundAt(v, depth, q);
        }
      }
    }
    if Sound(v, depth) && forall i :: 0 <= i < |cs| ==> CleanEverywhere(cs[i], depth + 1) {
      forall p: Path ensures SoundAt(v, depth, p) {
        if p != [] && p[0] < |cs| {
          assert SoundAt(cs[p[0]], depth + 1, p[1..]);
        }
      }
    }
  }

  /** The walk's own test of one value, without its children. */
  lemma SoundByKind(v: Json, depth: nat)
    ensures Sound(v, depth) <==>
            match v
            case Str(s) => !LooksLikeToken(s)
            case Float(finite) => finite
            case Arr(_) => depth <= MAX_DEPTH
            case Obj(fields) => depth <= MAX_DEPTH && forall i :: 0 <= i < |fields| ==> KeyAllowed(fields[i].key)
            case Other => false
            case _ => true
  {
    hide LooksLikeToken, KeyAllowed;
    assert Sound(v, depth) ==>
      !Offends(v, depth, TooDeep) && !Offends(v, depth, DeniedKey) && !Offends(v, depth, TokenShape)
      && !Offends(v, depth, NonFinite) && !Offends(v, depth, UnsupportedKind);
  }

  lemma {:induction false} WalkAccepts(v: Json, depth: nat, path: Path)
    ensures WalkValue(v, depth, path).Clean? <==> CleanEverywhere(v, depth)
    decreases v, 1
  {
    hide LooksLikeToken, KeyAllowed, CleanEverywhere, Sound;
    CleanByParts(v, depth);
    SoundByKind(v, depth);
    match v
    case Arr(elements) =>
      ElementsAccept(elements, 0, depth, path);
      assert Children(v) == elements;
    case Obj(fields) =>
      FieldsAccept(fields, 0, depth, path);
      assert forall i :: 0 <= i < |fields| ==> fields[i].value == Children(v)[i];
      assert forall i :: 0 <= i < |fields| ==> Children(v)[i] == fields[i].value;
    case _ =>
      assert Children(v) == [];
  }

  lemma {:induction false} ElementsAccept(es: seq<Json>, i: nat, depth: nat, path: Path)
    requires i <= |es|
    ensures WalkElements(es, i, depth, path).Clean? <==> forall k :: i <= k < |es| ==> CleanEverywhere(es[k], depth + 1)
    decreases es, 0, |es| - i
  {
    hide CleanEverywhere, WalkValue;
    if i < |es| {
      WalkAccepts(es[i], depth + 1, path + [i]);
      ElementsAccept(es, i + 1, depth, path);
    }
  }

  lemma {:induction false} FieldsAccept(fs: seq<Field>, i: nat, depth: nat, path: Path)
    requires i <= |fs|
    ensures WalkFields(fs, i, depth, path).Clean? <==>
            forall k :: i <= k < |fs| ==> KeyAllowed(fs[k].key) && CleanEverywhere(fs[k].value, depth + 1)
    decreases fs, 0, |fs| - i
  {
    hide CleanEverywhere, WalkValue, KeyAllowed;
    if i < |fs| {
      WalkAccepts(fs[i].value, depth + 1, path + [i]);
      FieldsAccept(fs, i + 1, depth, path);
    }
  }

  /** The sanitizer accepts exactly the objects that are clean on every path and serialize to at most 64 KiB. */
  lemma AcceptsExactly(details: Json, dump: Dump)
    ensures Sanitize(details, dump).Accepted? <==>
            details.Obj? && CleanEverywhere(details, 0) && dump(details).Some? && |dump(details).value| <= 64 * 1024
  {
    hide CleanEverywhere, WalkValue;
    WalkAccepts(details, 0, []);
  }

  // ---------- what it reports ----------

  /** The report names a value that is really there and really offends. */
  ghost predicate Justified(v: Json, depth: nat, path: Path, w: Walk) {
    w.Offence? ==> path <= w.at && At(v, w.at[|path|..]).Some?
                   && Offends(At(v, w.at[|path|..]).value, depth + |w.at| - |path|, w.reason)
  }

  lemma {:induction false} ReportIsJustified(v: Json, depth: nat, path: Path)
    ensures Justified(v, depth, path, WalkValue(v, depth, path))
    decreases v, 1
  {
    hide LooksLikeToken, KeyAllowed;
    var w := WalkValue(v, depth, path);
    assert path[|path|..] == [] && At(v, []) == Some(v);
    if v.Arr? && depth <= MAX_DEPTH {
      ElementsJustified(v, 0, depth, path);
    } else if v.Obj? && depth <= MAX_DEPTH {
      FieldsJustified(v, 0, depth, path);
    }
  }

  lemma ChildJustified(v: Json, i: nat, depth: nat, path: Path, w: Walk)
    requires i < |Children(v)| && Justified(Children(v)[i], depth + 1, path + [i], w)
    ensures Justified(v, depth, path, w)
  {
    hide Offends;
    if w.Offence? {
      var p, q := w.at[|path|..], w.at[|path| + 1..];
      assert w.at[|path|] == (path + [i])[|path|] == i;
      assert p == [i] + q && p[1..] == q;
      assert path <= w.at;
    }
  }

  lemma {:induction false} ElementsJustified(v: Json, i: nat, depth: nat, path: Path)
    requires v.Arr? && i <= |v.elements|
    ensures Justified(v, depth, path, WalkElements(v.elements, i, depth, path))
    decreases v, 0, |v.elements| - i
  {
    if i < |v.elements| {
      ReportIsJustified(v.elements[i], depth + 1, path + [i]);
      ChildJustified(v, i, depth, path, WalkValue(v.elements[i], depth + 1, path + [i]));
      ElementsJustified(v, i + 1, depth, path);
    }
  }

  lemma {:induction false} FieldsJustified(v: Json, i: nat, depth: nat, path: Path)
    requires v.Obj? && i <= |v.fields|
    ensures Justified(v, depth, path, WalkFields(v.fields, i, depth, path))
    decreases v, 0, |v.fields| - i
  {
    hide KeyAllowed;
    if i < |v.fields| {
      if KeyAllowed(v.fields[i].key) {
        ReportIsJustified(v.fields[i].value, depth + 1, path + [i]);
        ChildJustified(v, i, depth, path, WalkValue(v.fields[i].value, depth + 1, path + [i]));
        FieldsJustified(v, i + 1, depth, path);
      } else {
        assert path[|path|..] == [] && At(v, []) == Some(v);
        assert Offends(v, depth, DeniedKey);
      }
    }
  }

  // ---------- how deep containers nest ----------

  /** `n + 1` arrays, one inside the other. */
  function Nest(n: nat): Json {
    if n == 0 then Arr([]) else Arr([Nest(n - 1)])
  }

  lemma {:induction false} NestWalk(n: nat, depth: nat, path: Path)
    ensures WalkValue(Nest(n), depth, path).Clean? <==> depth + n <= MAX_DEPTH
    decreases n
  {
    if n > 0 && depth <= MAX_DEPTH {
      var es := [Nest(n - 1)];
      NestWalk(n - 1, depth + 1, path + [0]);
      assert WalkElements(es, 1, depth, path).Clean?;
      assert WalkElements(es, 0, depth, path).Clean? <==> WalkValue(es[0], depth + 1, path + [0]).Clean?;
    }
  }

  /** A payload with `n + 1` arrays inside its object passes exactly up to eight of them, so containers may nest nine deep. */
  lemma NineDeep(n: nat, dump: Dump)
    requires var p := Obj([Field("kind", Nest(n))]); dump(p).Some? && |dump(p).value| <= MAX_TOTAL_BYTES
    ensures Sanitize(Obj([Field("kind", Nest(n))]), dump).Accepted? <==> n + 1 <= 8
  {
    var fs := [Field("kind", Nest(n))];
    assert Lowered("kind") == "kind" && KeyAllowed("kind");
    NestWalk(n, 1, [] + [0]);
    assert WalkFields(fs, 1, 0, []).Clean?;
    assert WalkFields(fs, 0, 0, []).Clean? <==> WalkValue(fs[0].value, 1, [] + [0]).Clean?;
  }

  /** The payload that stands in for a rejected one. */
  const REJECTION := Obj([Field("kind", Str("sanitizer_rejected_payload"))])

  /** The stand-in passes the sanitizer itself, as long as it can be written out at all. */
  lemma RejectionPasses(dump: Dump)
    requires dump(REJECTION).Some? && |dump(REJECTION).value| <= MAX_TOTAL_BYTES
    ensures Sanitize(REJECTION, dump).Accepted?
  {
    var f := REJECTION.fields[0];
    assert Lowered(f.key) == "kind";
    assert KeyAllowed(f.key);
    assert WalkValue(f.value, 1, [] + [0]).Clean?;
    assert WalkFields(REJECTION.fields, 1, 0, []).Clean?;
  }

  /** A rejection for an offence points at an offending value of the payload. */
  lemma RejectionIsJustified(details: Json, dump: Dump)
    requires Sanitize(details, dump).Offending?
    ensures var r := Sanitize(details, dump);
            At(details, r.at).Some? && Offends(At(details, r.at).value, |r.at|, r.reason)
  {
    ReportIsJustified(details, 0, []);
    var at := WalkValue(details, 0, []).at;
    assert at[0..] == at;
  }

  // ---------- keys and leaves, spelled out ----------

  /** The first `body` characters are letters, digits or one of + - / _ by their codes, and the rest are '='. */
  ghost predicate BodyThenPadding(s: string, body: nat) {
    && body <= |s| <= body + 2
    && (forall i :: 0 <= i < body ==>
          var c := s[i] as int;
          65 <= c <= 90 || 97 <= c <= 122 || 48 <= c <= 57 || c == 43 || c == 45 || c == 47 || c == 95)
    && (forall i :: body <= i < |s| ==> s[i] == '=')
  }

  /** A token shape: 32 characters or more in all, of base 64 in either form and with at most two '=' at the end. */
  lemma TokenShapeSpelledOut(s: string)
    ensures LooksLikeToken(s) <==> |s| >= 32 && exists body: nat :: BodyThenPadding(s, body)
  {
    HexTestIsRedundant(s);
    if |s| >= 32 {
      BodyIsPadded(s, 0);
      BodyIsPadded(s, 1);
      BodyIsPadded(s, 2);
      hide PaddedBy, BodyThenPadding, HexLike;
      if body: nat :| BodyThenPadding(s, body) {
        BodyFits(s, body);
        assert |s| - body == 0 || |s| - body == 1 || |s| - body == 2;
      }
    }
  }

  lemma BodyFits(s: string, body: nat)
    requires BodyThenPadding(s, body)
    ensures body <= |s| <= body + 2
  {}

  lemma BodyIsPadded(s: string, k: nat)
    requires 32 <= |s| && k <= 2
    ensures PaddedBy(s, k) <==> BodyThenPadding(s, |s| - k)
  {
    var body: nat := |s| - k;
    forall i | 0 <= i < body
      ensures IsBase64(s[i]) <==>
              var c := s[i] as int;
              65 <= c <= 90 || 97 <= c <= 122 || 48 <= c <= 57 || c == 43 || c == 45 || c == 47 || c == 95
    {}
  }

  /** The keys that are let through whatever is in them. */
  lemma AllowedKeysSpelledOut(k: string)
    ensures k in ALLOWED_KEYS <==>
            || k == "userid" || k == "sessionid" || k == "accountid" || k == "transactionid" || k == "entityid" || k == "tokenid"
            || k == "subjectid" || k == "actoruserid" || k == "domain" || k == "outcome" || k == "action" || k == "kind"
            || k == "reason" || k == "version" || k == "seq" || k == "ts" || k == "count" || k == "added" || k == "modified"
            || k == "removed" || k == "httpstatus" || k == "errorcode" || k == "transports"
  {}

  /** The words that no other key may have in it. */
  lemma DeniedWordsSpelledOut(k: string)
    ensures (exists sub :: sub in DENY_KEY_SUBSTRINGS && Contains(k, sub)) <==>
            || Contains(k, "password") || Contains(k, "passphrase") || Contains(k, "secret") || Contains(k, "token")
            || Contains(k, "cookie") || Contains(k, "dek") || Contains(k, "kek") || Contains(k, "keksalt")
            || Contains(k, "credentialpublickey") || Contains(k, "signature") || Contains(k, "pem") || Contains(k, "key")
  {
    hide Contains;
    var d := DENY_KEY_SUBSTRINGS;
    assert d[0] == "password" && d[1] == "passphrase" && d[2] == "secret" && d[3] == "token";
    assert d[4] == "cookie" && d[5] == "dek" && d[6] == "kek" && d[7] == "keksalt";
    assert d[8] == "credentialpublickey" && d[9] == "signature" && d[10] == "pem" && d[11] == "key";
  }

  /** A key is allowed exactly if its lower case is one of the former or has none of the latter in it. */
  lemma KeyAllowedExactly(key: string, k: string)
    requires |k| == |key| && forall i :: 0 <= i < |k| ==> k[i] == if 'A' <= key[i] <= 'Z' then (key[i] as int + 32) as char else key[i]
    ensures KeyAllowed(key) <==> k in ALLOWED_KEYS || !exists sub :: sub in DENY_KEY_SUBSTRINGS && Contains(k, sub)
  {
    assert k == Lowered(key);
    hide Contains;
  }

  /** A payload with one harmless key passes exactly if its value is null, a number that is finite, a boolean, or text that is no token. */
  lemma LeavesSpelledOut(v: Json, dump: Dump)
    requires !v.Arr? && !v.Obj?
    requires var p := Obj([Field("kind", v)]); dump(p).Some? && |dump(p).value| <= 64 * 1024
    ensures Sanitize(Obj([Field("kind", v)]), dump).Accepted? <==>
            v.Null? || v.Integer? || v.Boolean? || (v.Float? && v.finite) || (v.Str? && !LooksLikeToken(v.s))
  {
    hide LooksLikeToken;
    var fs := [Field("kind", v)];
    assert Lowered("kind") == "kind" && KeyAllowed("kind");
    assert WalkFields(fs, 1, 0, []).Clean?;
    assert WalkFields(fs, 0, 0, []).Clean? <==> WalkValue(v, 1, [] + [0]).Clean?;
  }
}
