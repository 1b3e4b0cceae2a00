/** The canonical byte form of an audit entry, the code that builds it, and a parser that inverts it. */
module CanonicalBytes {
  import opened BigEndian
  import opened Wrappers

  const NANOS_PER_MS := 1_000_000
  const HASH_LEN := 32
  const U64 := 0x1_0000_0000_0000_0000
  const I64 := 0x8000_0000_0000_0000

  datatype Result<+T> = Ok(value: T) | InvalidArgument

  datatype Entry = Entry(
    seqNo: int, tsMs: int,
    actorUserId: Bytes, actorKind: Bytes, domain: Bytes, subjectId: Bytes, subjectKind: Bytes, action: Bytes, outcome: Bytes,
    detailsJson: Bytes, prevHash: Bytes)
  {
    function Texts(): (ts: seq<Bytes>)
      ensures |ts| == 7
    {
      [actorUserId, actorKind, domain, subjectId, subjectKind, action, outcome]
    }
  }

  /** The bit pattern of a signed 64-bit number, as an unsigned one. */
  function Unsigned(x: int): nat { x % U64 }

  /** Text fields one after another, each followed by a NUL byte. */
  function Joined(ts: seq<Bytes>): Bytes {
    if ts == [] then [] else ts[0] + [0] + Joined(ts[1..])
  }

  /** The layout that gets hashed. */
  function Canonical(e: Entry): Bytes {
    Encode(Unsigned(e.seqNo), 8) + Encode(Unsigned(e.tsMs * NANOS_PER_MS), 8)
    + (Joined(e.Texts()) + (Encode(|e.detailsJson|, 4) + (e.detailsJson + e.prevHash)))
  }

  // ---------- building it ----------

  class ByteBuffer {
    var bytes: Bytes

    constructor ()
      ensures bytes == []
    {
      bytes := [];
    }

    method PushBack(b: byte)
      modifies this
      ensures bytes == old(bytes) + [b]
    {
      bytes := bytes + [b];
    }
  }

  method AppendBe64(out: ByteBuffer, v: nat)
    modifies out
    ensures out.bytes == old(out.bytes) + Encode(v, 8)
  {
    ghost var before := out.bytes;
    forall i | 0 <= i < 8 ensures Encode(v, 8)[i] == Shr(v, 7 - i) % 256 { ByteAt(v, 8, i); }
    out.PushBack(Shr(v, 7) % 256);
    out.PushBack(Shr(v, 6) % 256);
    out.PushBack(Shr(v, 5) % 256);
    out.PushBack(Shr(v, 4) % 256);
    out.PushBack(Shr(v, 3) % 256);
    out.PushBack(Shr(v, 2) % 256);
    out.PushBack(Shr(v, 1) % 256);
    out.PushBack(Shr(v, 0) % 256);
  }

  method AppendBeInt64(out: ByteBuffer, v: int)
    modifies out
    ensures out.bytes == old(out.bytes) + Encode(Unsigned(v), 8)
  {
    AppendBe64(out, Unsigned(v));
  }

  method AppendBe32(out: ByteBuffer, v: nat)
    modifies out
    ensures out.bytes == old(out.bytes) + Encode(v, 4)
  {
    forall i | 0 <= i < 4 ensures Encode(v, 4)[i] == Shr(v, 3 - i) % 256 { ByteAt(v, 4, i); }
    out.PushBack(Shr(v, 3) % 256);
    out.PushBack(Shr(v, 2) % 256);
    out.PushBack(Shr(v, 1) % 256);
    out.PushBack(Shr(v, 0) % 256);
  }

  method AppendRaw(out: ByteBuffer, bs: Bytes)
    modifies out
    ensures out.bytes == old(out.bytes) + bs
  {
    for i := 0 to |bs|
      invariant out.bytes == old(out.bytes) + bs[..i]
    {
      out.PushBack(bs[i]);
    }
  }

  method AppendNulTerminated(out: ByteBuffer, s: Bytes)
    modifies out
    ensures out.bytes == old(out.bytes) + (s + [0])
  {
    AppendRaw(out, s);
    out.PushBack(0);
  }

  method ComputeCanonicalBytes(e: Entry) returns (r: Result<Bytes>)
    ensures r == if |e.prevHash| == HASH_LEN then Ok(Canonical(e)) else InvalidArgument
  {
    hide Encode, Joined;
    if |e.prevHash| != HASH_LEN { return InvalidArgument; }
    var out := new ByteBuffer();
    AppendBe64(out, Unsigned(e.seqNo));
    AppendBeInt64(out, e.tsMs * NANOS_PER_MS);
    AppendTexts(out, e);
    Encode32(|e.detailsJson|);
    AppendBe32(out, |e.detailsJson| % 0x1_0000_0000);
    AppendRaw(out, e.detailsJson);
    AppendRaw(out, e.prevHash);
    Reassociate(Encode(Unsigned(e.seqNo), 8) + Encode(Unsigned(e.tsMs * NANOS_PER_MS), 8), Joined(e.Texts()),
                Encode(|e.detailsJson|, 4), e.detailsJson, e.prevHash);
    assert out.bytes == Canonical(e);
    r := Ok(out.bytes);
  }

  lemma Reassociate(a: Bytes, b: Bytes, c: Bytes, d: Bytes, e: Bytes)
    ensures a + b + c + d + e == a + (b + (c + (d + e)))
  {}

  /** The seven text fields, in order. */
  method AppendTexts(out: ByteBuffer, e: Entry)
    modifies out
    ensures out.bytes == old(out.bytes) + Joined(e.Texts())
  {
    hide Joined;
    ghost var start, ts := out.bytes, e.Texts();
    JoinedNone(ts, start);
    ghost var done := out.bytes;
    AppendNulTerminated(out, e.actorUserId);
    JoinedOneMore(ts, 0, start, done, out.bytes);
    done := out.bytes;
    AppendNulTerminated(out, e.actorKind);
    JoinedOneMore(ts, 1, start, done, out.bytes);
    done := out.bytes;
    AppendNulTerminated(out, e.domain);
    JoinedOneMore(ts, 2, start, done, out.bytes);
    done := out.bytes;
    AppendNulTerminated(out, e.subjectId);
    JoinedOneMore(ts, 3, start, done, out.bytes);
    done := out.bytes;
    AppendNulTerminated(out, e.subjectKind);
    JoinedOneMore(ts, 4, start, done, out.bytes);
    done := out.bytes;
    AppendNulTerminated(out, e.action);
    JoinedOneMore(ts, 5, start, done, out.bytes);
    done := out.bytes;
    AppendNulTerminated(out, e.outcome);
    JoinedOneMore(ts, 6, start, done, out.bytes);
    assert ts[..7] == ts;
  }

  lemma JoinedNone(ts: seq<Bytes>, start: Bytes)
    ensures start == start + Joined(ts[..0])
  {}

  /** A buffer that holds the first `k` texts and gets one more. */
  lemma JoinedOneMore(ts: seq<Bytes>, k: nat, start: Bytes, before: Bytes, after: Bytes)
    requires k < |ts| && before == start + Joined(ts[..k]) && after == before + (ts[k] + [0])
    ensures after == start + Joined(ts[..k + 1])
  {
    hide Joined;
    JoinedSnoc(ts, k);
  }

  /** Joining one more text appends it and its NUL. */
  lemma {:induction false} JoinedSnoc(ts: seq<Bytes>, k: nat)
    requires k < |ts|
    ensures Joined(ts[..k + 1]) == Joined(ts[..k]) + (ts[k] + [0])
  {
    if k == 0 {
      assert ts[..1][1..] == [];
    } else {
      JoinedSnoc(ts[1..], k - 1);
      assert ts[..k + 1][1..] == ts[1..][..k] && ts[..k][1..] == ts[1..][..k - 1];
    }
  }

  /** The cast of the length to 32 bits does not show in a 4-byte field. */
  lemma Encode32(n: nat)
    ensures Encode(n % 0x1_0000_0000, 4) == Encode(n, 4)
  {
    Spans();
    EncodeWraps(n % 0x1_0000_0000, n / 0x1_0000_0000, 4);
  }

  // ---------- reading it back ----------

  function Signed(n: nat): int { if n < I64 then n else n - U64 }

  /** The bytes before the first NUL, and what follows it. */
  function TakeText(b: Bytes): (r: Option<(Bytes, Bytes)>)
    ensures r.Some? ==> |r.value.1| < |b|
  {
    if b == [] then None
    else if b[0] == 0 then Some(([], b[1..]))
    else
      var r := TakeText(b[1..]);
      if r.None? then None else Some(([b[0]] + r.value.0, r.value.1))
  }

  function TakeTexts(b: Bytes, n: nat): (r: Option<(seq<Bytes>, Bytes)>)
    ensures r.Some? ==> |r.value.0| == n
    decreases n
  {
    if n == 0 then Some(([], b))
    else
      var t := TakeText(b);
      if t.None? then None
      else
        var r := TakeTexts(t.value.1, n - 1);
        if r.None? then None else Some(([t.value.0] + r.value.0, r.value.1))
  }

  /** Reads an entry back from its canonical bytes, if they are well formed. */
  function Parsed(b: Bytes): Option<Entry> {
    if |b| < 16 then None
    else
      var texts := TakeTexts(b[16..], 7);
      if texts.None? || |texts.value.1| < 4 then None
      else
        var (ts, rest) := texts.value;
        var n := Decode(rest[..4]);
        if |rest| != 4 + n + HASH_LEN then None
        else
          Some(Entry(Signed(Decode(b[..8])), Signed(Decode(b[8..16])) / NANOS_PER_MS,
                     ts[0], ts[1], ts[2], ts[3], ts[4], ts[5], ts[6], rest[4..4 + n], rest[4 + n..]))
  }

  ghost predicate NulFree(t: Bytes) { 0 !in t }

  ghost predicate Int64(x: int) { -I64 <= x < I64 }

  /** What the encoding needs to be reversible. */
  ghost predicate WellFormed(e: Entry) {
    && Int64(e.seqNo) && Int64(e.tsMs * NANOS_PER_MS)
    && (forall t :: t in e.Texts() ==> NulFree(t))
    && |e.detailsJson| < 0x1_0000_0000 && |e.prevHash| == HASH_LEN
  }

  lemma Encode64RoundTrip(x: int)
    requires Int64(x)
    ensures Signed(Decode(Encode(Unsigned(x), 8))) == x
  {
    Spans();
    DecodeInvertsEncode(Unsigned(x), 8);
  }

  lemma {:induction false} TakeTextInverts(t: Bytes, rest: Bytes)
    requires NulFree(t)
    ensures TakeText(t + [0] + rest) == Some((t, rest))
  {
    var b := t + [0] + rest;
    if t == [] {
      assert b[1..] == rest;
    } else {
      TakeTextInverts(t[1..], rest);
      assert b[1..] == t[1..] + [0] + rest;
      assert [t[0]] + t[1..] == t;
    }
  }

  lemma JoinedHead(ts: seq<Bytes>, rest: Bytes)
    requires ts != []
    ensures Joined(ts) + rest == ts[0] + [0] + (Joined(ts[1..]) + rest)
  {}

  lemma TakeOneMore(b: Bytes, t: Bytes, more: Bytes, ts: seq<Bytes>, rest: Bytes)
    requires TakeText(b) == Some((t, more)) && TakeTexts(more, |ts|) == Some((ts, rest))
    ensures TakeTexts(b, |ts| + 1) == Some(([t] + ts, rest))
  {
    hide TakeText;
  }

  lemma {:induction false} TakeTextsInverts(ts: seq<Bytes>, rest: Bytes)
    requires forall t :: t in ts ==> NulFree(t)
    ensures TakeTexts(Joined(ts) + rest, |ts|) == Some((ts, rest))
  {
    if ts == [] {
      assert Joined(ts) + rest == rest;
    } else {
      hide TakeText, TakeTexts, NulFree, Joined;
      var more := Joined(ts[1..]) + rest;
      TakeTextInverts(ts[0], more);
      TakeTextsInverts(ts[1..], rest);
      JoinedHead(ts, rest);
      TakeOneMore(ts[0] + [0] + more, ts[0], more, ts[1..], rest);
      assert ts == [ts[0]] + ts[1..];
    }
  }

  /** The canonical bytes of a well-formed entry determine the whole entry. */
  lemma ParseInvertsCanonical(e: Entry)
    requires WellFormed(e)
    ensures Parsed(Canonical(e)) == Some(e)
  {
    hide Encode, Joined, TakeTexts;
    var a, c := Encode(Unsigned(e.seqNo), 8), Encode(Unsigned(e.tsMs * NANOS_PER_MS), 8);
    var l := Encode(|e.detailsJson|, 4);
    var tail := l + (e.detailsJson + e.prevHash);
    Encode64RoundTrip(e.seqNo);
    Encode64RoundTrip(e.tsMs * NANOS_PER_MS);
    TakeTextsInverts(e.Texts(), tail);
    Spans();
    DecodeInvertsEncode(|e.detailsJson|, 4);
    assert |a| == 8 && |c| == 8 && |l| == 4;
    Slices(a, c, Joined(e.Texts()) + tail);
    TailSlices(l, e.detailsJson, e.prevHash);
  }

  lemma Slices(a: Bytes, c: Bytes, rest: Bytes)
    requires |a| == 8 && |c| == 8
    ensures (a + c + rest)[..8] == a && (a + c + rest)[8..16] == c && (a + c + rest)[16..] == rest
  {}

  lemma TailSlices(l: Bytes, d: Bytes, p: Bytes)
    requires |l| == 4
    ensures (l + (d + p))[..4] == l && (l + (d + p))[4..4 + |d|] == d && (l + (d + p))[4 + |d|..] == p
  {}

  lemma {:induction false} TakeTextNulFree(b: Bytes)
    ensures TakeText(b).Some? ==> NulFree(TakeText(b).value.0)
  {
    if b != [] && b[0] != 0 { TakeTextNulFree(b[1..]); }
  }

  lemma {:induction false} TakeTextsNulFree(b: Bytes, n: nat)
    ensures TakeTexts(b, n).Some? ==> forall t :: t in TakeTexts(b, n).value.0 ==> NulFree(t)
    decreases n
  {
    hide TakeText, NulFree;
    if n > 0 {
      TakeTextNulFree(b);
      if TakeText(b).Some? { TakeTextsNulFree(TakeText(b).value.1, n - 1); }
    }
  }

  lemma DecodeFits(bs: Bytes)
    ensures Decode(bs) < Span(|bs|)
  {
    EncodeInvertsDecode(bs);
    DecodeInvertsEncode(Decode(bs), |bs|);
  }

  /** Whatever parses has fields in range, except possibly its time. */
  lemma ParsedInRange(b: Bytes)
    requires Parsed(b).Some?
    ensures var e := Parsed(b).value;
            && Int64(e.seqNo) && e.tsMs == Signed(Decode(b[8..16])) / NANOS_PER_MS
            && (forall t :: t in e.Texts() ==> NulFree(t))
            && |e.detailsJson| < 0x1_0000_0000 && |e.prevHash| == HASH_LEN
  {
    hide TakeTexts, NulFree;
    var e := Parsed(b).value;
    var (ts, rest) := TakeTexts(b[16..], 7).value;
    TakeTextsNulFree(b[16..], 7);
    assert e.Texts() == ts;
    DecodeFits(b[..8]);
    DecodeFits(rest[..4]);
    Spans();
  }

  /** A time that wraps around 64 bits does not come back. */
  lemma TimeInRange(tsMs: int)
    requires Signed(Unsigned(tsMs * NANOS_PER_MS)) / NANOS_PER_MS == tsMs
    ensures Int64(tsMs * NANOS_PER_MS)
  {
    var x, y := tsMs * NANOS_PER_MS, Signed(Unsigned(tsMs * NANOS_PER_MS));
    var k := x / U64 + if Unsigned(x) < I64 then 0 else 1;
    assert y == x - k * U64;
  }

  /** The well-formed entries are exactly those that can be read back. */
  lemma ParsesBackExactly(e: Entry)
    ensures Parsed(Canonical(e)) == Some(e) <==> WellFormed(e)
  {
    if WellFormed(e) {
      ParseInvertsCanonical(e);
    } else if Parsed(Canonical(e)) == Some(e) {
      hide Parsed, Encode, Joined;
      var a, c := Encode(Unsigned(e.seqNo), 8), Encode(Unsigned(e.tsMs * NANOS_PER_MS), 8);
      assert |a| == 8 && |c| == 8;
      ParsedInRange(Canonical(e));
      Slices(a, c, Joined(e.Texts()) + (Encode(|e.detailsJson|, 4) + (e.detailsJson + e.prevHash)));
      Spans();
      DecodeInvertsEncode(Unsigned(e.tsMs * NANOS_PER_MS), 8);
      TimeInRange(e.tsMs);
      assert false;
    }
  }

  lemma CanonicalInjective(e: Entry, f: Entry)
    requires WellFormed(e) && WellFormed(f) && Canonical(e) == Canonical(f)
    ensures e == f
  {
    ParseInvertsCanonical(e);
    ParseInvertsCanonical(f);
  }

  /** A NUL inside a text field can be mistaken for its end: these two entries have the same bytes. */
  lemma NulsMakeEntriesCollide(e: Entry, f: Entry)
    requires e == Entry(1, 0, [97, 0, 98], [99], [], [], [], [], [], [], Encode(0, HASH_LEN))
    requires f == e.(actorUserId := [97], actorKind := [98, 0, 99])
    ensures e != f && Canonical(e) == Canonical(f)
  {
    hide Encode, Joined;
    var p, q := e.Texts(), f.Texts();
    JoinedTwo(p);
    JoinedTwo(q);
    assert p[2..] == q[2..];
    assert (p[0] + [0]) + (p[1] + [0]) == (q[0] + [0]) + (q[1] + [0]);
    Regroup(p[0] + [0], p[1] + [0], q[0] + [0], q[1] + [0], Joined(p[2..]));
    assert e.actorUserId[1] == 0;
  }

  lemma JoinedTwo(ts: seq<Bytes>)
    requires |ts| >= 2
    ensures Joined(ts) == (ts[0] + [0]) + ((ts[1] + [0]) + Joined(ts[2..]))
  {
    assert ts[1..][1..] == ts[2..];
  }

  lemma Regroup(a: Bytes, b: Bytes, c: Bytes, d: Bytes, rest: Bytes)
    requires a + b == c + d
    ensures a + (b + rest) == c + (d + rest)
  {
    assert a + (b + rest) == (a + b) + rest;
    assert c + (d + rest) == (c + d) + rest;
  }

  /** The layout, field after field, with the time in nanoseconds. */
  lemma Layout(e: Entry)
    ensures Canonical(e) ==
            Encode(e.seqNo % 0x1_0000_0000_0000_0000, 8) + Encode((e.tsMs * 1_000_000) % 0x1_0000_0000_0000_0000, 8)
            + e.actorUserId + [0] + e.actorKind + [0] + e.domain + [0] + e.subjectId + [0] + e.subjectKind + [0]
            + e.action + [0] + e.outcome + [0] + Encode(|e.detailsJson|, 4) + e.detailsJson + e.prevHash
  {
    hide Encode, Joined;
    var a, ts := Encode(Unsigned(e.seqNo), 8) + Encode(Unsigned(e.tsMs * NANOS_PER_MS), 8), e.Texts();
    var l := Encode(|e.detailsJson|, 4);
    JoinedNone(ts, a);
    var b := a + e.actorUserId + [0] + e.actorKind + [0] + e.domain + [0] + e.subjectId + [0] + e.subjectKind + [0] + e.action + [0] + e.outcome + [0];
    SevenTexts(ts, a, b);
    assert a + (Joined(ts) + (l + (e.detailsJson + e.prevHash))) == (a + Joined(ts)) + l + e.detailsJson + e.prevHash;
  }

  lemma SevenTexts(ts: seq<Bytes>, a: Bytes, b: Bytes)
    requires |ts| == 7
    requires b == a + ts[0] + [0] + ts[1] + [0] + ts[2] + [0] + ts[3] + [0] + ts[4] + [0] + ts[5] + [0] + ts[6] + [0]
    ensures b == a + Joined(ts)
  {
    hide Joined;
    JoinedNone(ts, a);
    var p := Appended(a, ts[0]);
    JoinedOneMore(ts, 0, a, a, p);
    var q := Appended(p, ts[1]);
    JoinedOneMore(ts, 1, a, p, q);
    p := Appended(q, ts[2]);
    JoinedOneMore(ts, 2, a, q, p);
    q := Appended(p, ts[3]);
    JoinedOneMore(ts, 3, a, p, q);
    p := Appended(q, ts[4]);
    JoinedOneMore(ts, 4, a, q, p);
    q := Appended(p, ts[5]);
    JoinedOneMore(ts, 5, a, p, q);
    p := Appended(q, ts[6]);
    JoinedOneMore(ts, 6, a, q, p);
    assert ts[..7] == ts;
  }

  lemma Appended(a: Bytes, t: Bytes) returns (b: Bytes)
    ensures b == a + t + [0] && b == a + (t + [0])
  {
    b := a + t + [0];
    assert b == a + (t + [0]);
  }
}
