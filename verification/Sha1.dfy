/** SHA-1 as RFC 3174 defines it, and the streaming state that computes it sixty-four bytes at a time. */
module Sha1 {
  import BE = BigEndian

  type Octets = seq<bv8>

  const BLOCK := 64
  const DIGEST := 20

  // ---------- RFC 3174 ----------

  /** The circular left shift S^n of section 3, for the three distances SHA-1 uses. */
  function Rot(x: bv32, n: nat): bv32
    requires n == 1 || n == 5 || n == 30
  {
    if n == 1 then (x << 1) | (x >> 31)
    else if n == 5 then (x << 5) | (x >> 27)
    else (x << 30) | (x >> 2)
  }

  function Choose(b: bv32, c: bv32, d: bv32): bv32 { (b & c) | (!b & d) }

  function Parity(b: bv32, c: bv32, d: bv32): bv32 { b ^ c ^ d }

  function Majority(b: bv32, c: bv32, d: bv32): bv32 { (b & c) | (b & d) | (c & d) }

  function Xor(p: bv32, q: bv32, r: bv32, s: bv32): bv32 { p ^ q ^ r ^ s }

  function Add(p: bv32, q: bv32): bv32 { p + q }

  function Sum(p: bv32, q: bv32, r: bv32, s: bv32, t: bv32): bv32 { p + q + r + s + t }

  /** The functions f(t) of section 5. */
  function F(t: nat, b: bv32, c: bv32, d: bv32): bv32 {
    if t < 20 then Choose(b, c, d)
    else if t < 40 then Parity(b, c, d)
    else if t < 60 then Majority(b, c, d)
    else Parity(b, c, d)
  }

  /** The constants K(t) of section 5. */
  function K(t: nat): bv32 {
    if t < 20 then 0x5A827999 else if t < 40 then 0x6ED9EBA1 else if t < 60 then 0x8F1BBCDC else 0xCA62C1D6
  }

  /** Four bytes as one word, most significant first. */
  function Word(b0: bv8, b1: bv8, b2: bv8, b3: bv8): bv32 {
    ((b0 as bv32) << 24) | ((b1 as bv32) << 16) | ((b2 as bv32) << 8) | (b3 as bv32)
  }

  /** The schedule W(t) of section 6.1: the block's sixteen words, then each from four earlier ones. */
  function W(block: Octets, t: nat): bv32
    requires |block| == BLOCK
  {
    if t < 16 then Word(block[4 * t], block[4 * t + 1], block[4 * t + 2], block[4 * t + 3])
    else Rot(Xor(W(block, t - 3), W(block, t - 8), W(block, t - 14), W(block, t - 16)), 1)
  }

  datatype State = State(a: bv32, b: bv32, c: bv32, d: bv32, e: bv32) {
    function Plus(s: State): State {
      State(Add(a, s.a), Add(b, s.b), Add(c, s.c), Add(d, s.d), Add(e, s.e))
    }
  }

  const INITIAL := State(0x67452301, 0xEFCDAB89, 0x98BADCFE, 0x10325476, 0xC3D2E1F0)

  /** Step (d) of section 6.1 for one t. The five addends of TEMP are summed in the order the code sums them. */
  function Step(s: State, t: nat, w: bv32): State {
    State(Sum(Rot(s.a, 5), F(t, s.b, s.c, s.d), s.e, K(t), w), s.a, Rot(s.b, 30), s.c, s.d)
  }

  function Rounds(s: State, block: Octets, n: nat): State
    requires |block| == BLOCK
  {
    if n == 0 then s else Step(Rounds(s, block, n - 1), n - 1, W(block, n - 1))
  }

  /** Steps (a) to (e) of section 6.1 for one block. */
  function Compress(s: State, block: Octets): State
    requires |block| == BLOCK
  {
    s.Plus(Rounds(s, block, 80))
  }

  /** The state after the `n` blocks of `m`. */
  function Absorb(s: State, m: Octets, n: nat): State
    requires |m| == BLOCK * n
  {
    if n == 0 then s else Compress(Absorb(s, m[..|m| - BLOCK], n - 1), m[|m| - BLOCK..])
  }

  /** How many blocks a message of `n` bytes fills with its padding: one byte 0x80 and eight of length have to fit. */
  function Blocks(n: nat): nat { (n + 9 + 63) / 64 }

  function Zeros(n: nat): (z: Octets)
    ensures |z| == n && forall i :: 0 <= i < n ==> z[i] == 0
  {
    seq(n, _ => 0)
  }

  /** The message length in bits as two words. (Beyond 2^64 bits this keeps the low 64.) */
  function LengthField(n: nat): (f: Octets)
    ensures |f| == 8
  {
    var bs := BE.Encode(8 * n, 8);
    seq(8, i requires 0 <= i < 8 => bs[i] as bv8)
  }

  /** Section 4: a one bit, as few zero bits as possible, and the 64-bit length, to a whole number of blocks. */
  function Pad(m: Octets): (p: Octets)
    ensures |p| == BLOCK * Blocks(|m|)
  {
    m + [0x80] + Zeros(BLOCK * Blocks(|m|) - |m| - 9) + LengthField(|m|)
  }

  function WordOctets(w: bv32): (o: Octets)
    ensures |o| == 4
  {
    [(w >> 24) as bv8, ((w >> 16) & 0xFF) as bv8, ((w >> 8) & 0xFF) as bv8, (w & 0xFF) as bv8]
  }

  function StateOctets(s: State): (o: Octets)
    ensures |o| == DIGEST
  {
    WordOctets(s.a) + WordOctets(s.b) + WordOctets(s.c) + WordOctets(s.d) + WordOctets(s.e)
  }

  /** The digest of a message. */
  function Digest(m: Octets): (o: Octets)
    ensures |o| == DIGEST
  {
    StateOctets(Absorb(INITIAL, Pad(m), Blocks(|m|)))
  }

  /** The majority is whatever two of the words agree on. */
  lemma MajorityAgrees(x: bv32, y: bv32)
    ensures Majority(x, x, y) == x && Majority(x, y, x) == x && Majority(y, x, x) == x
  {}

  /** Under the ones of `b` the choice is `c`, and under its zeros `d`. */
  lemma ChooseChooses(b: bv32, c: bv32, d: bv32)
    ensures Choose(b, c, d) & b == c & b && Choose(b, c, d) & !b == d & !b
  {}

  /** The parity is the word that takes the other two back to zero. */
  lemma ParityBalances(b: bv32, c: bv32, d: bv32)
    ensures Parity(b, c, d) ^ b ^ c == d
  {}

  /** The constants are the integer parts of 2^30 times the square roots of 2, 3, 5 and 10, one for each twenty rounds. */
  lemma ConstantsAreRoots(t: nat)
    requires t < 80
    ensures var n := if t <= 19 then 2 else if t <= 39 then 3 else if t <= 59 then 5 else 10;
            var k := K(t) as nat; k * k <= n * 0x1000_0000_0000_0000 < (k + 1) * (k + 1)
  {}

  /** Padding: the message, the byte 0x80, as few zeros as make whole blocks, and the length in bits. */
  lemma PadShape(m: Octets)
    ensures var p := Pad(m);
            && |p| % 64 == 0 && |m| + 9 <= |p| < |m| + 9 + 64
            && p[..|m|] == m && p[|m|] == 0x80 && (forall i :: |m| < i < |p| - 8 ==> p[i] == 0)
            && (forall j :: 0 <= j < 8 ==> p[|p| - 8 + j] == BE.Encode(8 * |m|, 8)[j] as bv8)
  {
    var z, l := Zeros(BLOCK * Blocks(|m|) - |m| - 9), LengthField(|m|);
    FourParts(m, z, l);
    WholeBlocks(|m|);
  }

  lemma WholeBlocks(n: nat)
    ensures (BLOCK * Blocks(n)) % 64 == 0 && n + 9 <= BLOCK * Blocks(n) < n + 9 + 64
  {}

  lemma FourParts(m: Octets, z: Octets, l: Octets)
    ensures var p := m + [0x80] + z + l;
            && p[..|m|] == m && p[|m|] == 0x80
            && (forall i :: |m| < i < |p| - |l| ==> p[i] == z[i - |m| - 1])
            && (forall j :: 0 <= j < |l| ==> p[|p| - |l| + j] == l[j])
  {}

  /** Each byte of the length field, from a bit count that has wrapped around. */
  lemma LengthOctet(n: nat, bits: nat, wraps: nat, i: nat)
    requires bits + U64 * wraps == 8 * n && i < 8
    ensures LengthField(n)[i] == (BE.Shr(bits, 7 - i) % 256) as bv8
  {
    BE.Spans();
    BE.EncodeWraps(bits, wraps, 8);
    BE.ByteAt(bits, 8, i);
  }

  /** The length field says the true length exactly for messages shorter than 2^61 bytes. */
  lemma LengthFieldExact(n: nat)
    ensures BE.Decode(BE.Encode(8 * n, 8)) == 8 * n <==> n < 0x2000_0000_0000_0000
  {
    BE.DecodeInvertsEncode(8 * n, 8);
    BE.Spans();
  }

  lemma AbsorbBlock(s: State, m: Octets, n: nat, block: Octets)
    requires |m| == BLOCK * n && |block| == BLOCK
    ensures Absorb(s, m + block, n + 1) == Compress(Absorb(s, m, n), block)
  {
    assert (m + block)[..|m + block| - BLOCK] == m && (m + block)[|m + block| - BLOCK..] == block;
  }

  /** A state and a partial block hold the message `m`: its `k` whole blocks are compressed and the rest is kept. */
  ghost predicate Holds(s: State, tail: Octets, m: Octets, k: nat) {
    && |tail| < BLOCK && |m| == BLOCK * k + |tail|
    && tail == m[BLOCK * k..]
    && s == Absorb(INITIAL, m[..BLOCK * k], k)
  }

  lemma HoldsMore(s: State, tail: Octets, m: Octets, k: nat, chunk: Octets)
    requires Holds(s, tail, m, k) && |tail| + |chunk| < BLOCK
    ensures Holds(s, tail + chunk, m + chunk, k)
  {
    assert (m + chunk)[..BLOCK * k] == m[..BLOCK * k];
    assert (m + chunk)[BLOCK * k..] == tail + chunk;
  }

  lemma HoldsBlock(s: State, tail: Octets, m: Octets, k: nat, chunk: Octets)
    requires Holds(s, tail, m, k) && |tail| + |chunk| == BLOCK
    ensures Holds(Compress(s, tail + chunk), [], m + chunk, k + 1)
  {
    var done, block := m[..BLOCK * k], tail + chunk;
    AbsorbBlock(INITIAL, done, k, block);
    assert m + chunk == done + block;
    assert (done + block)[..BLOCK * (k + 1)] == done + block;
  }

  /** A tail of at most 55 bytes is padded within its own block. */
  lemma PadOne(s: State, tail: Octets, m: Octets, k: nat)
    requires Holds(s, tail, m, k) && |tail| <= 55
    ensures Digest(m) == StateOctets(Compress(s, tail + [0x80] + Zeros(55 - |tail|) + LengthField(|m|)))
  {
    hide Compress;
    var done, block := m[..BLOCK * k], tail + [0x80] + Zeros(55 - |tail|) + LengthField(|m|);
    assert Blocks(|m|) == k + 1;
    assert Pad(m) == done + block;
    AbsorbBlock(INITIAL, done, k, block);
  }

  /** A longer tail spills the length field into a block of its own. */
  lemma PadTwo(s: State, tail: Octets, m: Octets, k: nat)
    requires Holds(s, tail, m, k) && |tail| >= 56
    ensures Digest(m) == StateOctets(Compress(Compress(s, tail + [0x80] + Zeros(63 - |tail|)), Zeros(56) + LengthField(|m|)))
  {
    hide Compress;
    var done, first, second := m[..BLOCK * k], tail + [0x80] + Zeros(63 - |tail|), Zeros(56) + LengthField(|m|);
    assert Blocks(|m|) == k + 2;
    assert Pad(m) == done + first + second;
    AbsorbBlock(INITIAL, done, k, first);
    AbsorbBlock(INITIAL, done + first, k + 1, second);
  }

  // ---------- the streaming state ----------

  const U64 := 0x1_0000_0000_0000_0000

  class Sha1State {
    var h: array<bv32>
    var lenBits: nat
    var buf: array<bv8>
    var bufUsed: nat
    /** Everything `Update` was given so far, and how many whole blocks of it have been compressed. */
    ghost var message: Octets
    ghost var whole: nat
    /** How often the bit count has wrapped around. */
    ghost var wraps: nat

    ghost predicate Shape()
      reads this
    {
      h.Length == 5 && buf.Length == BLOCK && h as object != buf as object
    }

    ghost predicate Buffered(m: Octets)
      requires Shape()
      reads this, h, buf
    {
      bufUsed < BLOCK && Holds(HState(), buf[..bufUsed], m, whole)
    }

    ghost predicate Valid()
      reads this, h, buf
    {
      Shape() && Buffered(message) && lenBits + U64 * wraps == 8 * |message|
    }

    constructor ()
      ensures Valid() && fresh(h) && fresh(buf) && message == []
    {
      h := new bv32[5];
      buf := new bv8[BLOCK](_ => 0);
      lenBits, bufUsed, message, whole, wraps := 0, 0, [], 0, 0;
      new;
      h[0], h[1], h[2], h[3], h[4] := 0x67452301, 0xEFCDAB89, 0x98BADCFE, 0x10325476, 0xC3D2E1F0;
    }

    ghost function HState(): State
      requires h.Length == 5
      reads this, h
    {
      State(h[0], h[1], h[2], h[3], h[4])
    }

    /** Expands the buffered block into eighty words. */
    method Schedule() returns (w: array<bv32>)
      requires Shape()
      ensures fresh(w) && w.Length == 80 && forall t :: 0 <= t < 80 ==> w[t] == W(buf[..], t)
    {
      ghost var block := buf[..];
      w := new bv32[80];
      for i := 0 to 16
        invariant forall t :: 0 <= t < i ==> w[t] == W(block, t)
      {
        w[i] := Word(buf[i * 4], buf[i * 4 + 1], buf[i * 4 + 2], buf[i * 4 + 3]);
      }
      for i := 16 to 80
        invariant forall t :: 0 <= t < i ==> w[t] == W(block, t)
      {
        w[i] := Rot(Xor(w[i - 3], w[i - 8], w[i - 14], w[i - 16]), 1);
      }
    }

    /** Compresses the buffered block into the state. */
    method ProcessBlock()
      requires Shape()
      modifies h
      ensures HState() == Compress(old(HState()), buf[..])
    {
      var w := Schedule();
      var a, b, c, d, e := EightyRounds(h[0], h[1], h[2], h[3], h[4], w, buf[..]);
      AddIn(State(a, b, c, d, e));
    }

    method AddIn(s: State)
      requires h.Length == 5
      modifies h
      ensures HState() == old(HState()).Plus(s)
    {
      h[0] := Add(h[0], s.a);
      h[1] := Add(h[1], s.b);
      h[2] := Add(h[2], s.c);
      h[3] := Add(h[3], s.d);
      h[4] := Add(h[4], s.e);
    }

    /** Copies a chunk that fits into the buffer. */
    method Copy(chunk: Octets)
      requires Shape() && bufUsed + |chunk| <= BLOCK
      modifies this`bufUsed, buf
      ensures bufUsed == old(bufUsed) + |chunk|
      ensures buf[..bufUsed] == old(buf[..bufUsed]) + chunk
    {
      forall k | 0 <= k < |chunk| { buf[bufUsed + k] := chunk[k]; }
      bufUsed := bufUsed + |chunk|;
    }

    /** Takes a chunk that fits into the buffer, and compresses the buffer if that fills it. */
    method Take(chunk: Octets, ghost m: Octets)
      requires Shape() && Buffered(m) && bufUsed + |chunk| <= BLOCK
      modifies this`bufUsed, this`whole, h, buf
      ensures Buffered(m + chunk)
    {
      ghost var s, tail, k := HState(), buf[..bufUsed], whole;
      Copy(chunk);
      assert HState() == s;
      if bufUsed == BLOCK {
        assert buf[..] == tail + chunk;
        ProcessBlock();
        bufUsed, whole := 0, whole + 1;
        HoldsBlock(s, tail, m, k, chunk);
        assert buf[..bufUsed] == [];
      } else {
        HoldsMore(s, tail, m, k, chunk);
      }
    }

    /** Adds the bits of `n` more bytes to the 64-bit count. */
    method CountBits(n: nat)
      modifies this`lenBits, this`wraps
      ensures lenBits < U64 && lenBits + U64 * wraps == old(lenBits + U64 * wraps) + 8 * n
    {
      wraps := wraps + (lenBits + n * 8) / U64;
      lenBits := (lenBits + n * 8) % U64;
    }

    /** The copy loop: as much as fits, again and again. */
    method Feed(data: Octets, ghost m: Octets)
      requires Shape() && Buffered(m)
      modifies this`bufUsed, this`whole, h, buf
      ensures Buffered(m + data)
    {
      hide Holds;
      var pos, len := 0, |data|;
      ghost var fed := m;
      while len > 0
        invariant 0 <= len == |data| - pos && fed == m + data[..pos] && Buffered(fed)
      {
        var copy := if len < BLOCK - bufUsed then len else BLOCK - bufUsed;
        ghost var chunk := data[pos..pos + copy];
        Take(data[pos..pos + copy], fed);
        fed := fed + chunk;
        pos, len := pos + copy, len - copy;
      }
      assert fed == m + data;
    }

    /** Feeds `data`, however it is cut relative to the blocks. */
    method Update(data: Octets)
      requires Valid()
      modifies this`lenBits, this`wraps, this`bufUsed, this`whole, this`message, h, buf
      ensures Valid() && message == old(message) + data
    {
      CountBits(|data|);
      Feed(data, message);
      message := message + data;
    }

    /** Pads, compresses the last one or two blocks, and returns the digest. The state is not for reuse. */
    method Finalize() returns (out: Octets)
      requires Valid()
      modifies this, h, buf
      ensures out == Digest(old(message))
    {
      hide Compress, Digest;
      ghost var s, tail, m := HState(), buf[..bufUsed], message;
      buf[bufUsed] := 0x80;
      bufUsed := bufUsed + 1;
      ghost var marked := tail + [0x80];
      assert buf[..bufUsed] == marked && HState() == s;
      if bufUsed > 56 {
        PadTwo(s, tail, m, whole);
        Spill();
        assert buf[..bufUsed] + Zeros(56) == Zeros(56);
      } else {
        PadOne(s, tail, m, whole);
      }
      LastBlock(|m|);
      out := StateOctets(State(h[0], h[1], h[2], h[3], h[4]));
    }

    /** No room for the length: compresses the block filled up with zeros, and starts another. */
    method Spill()
      requires Shape() && bufUsed <= BLOCK
      modifies this`bufUsed, h, buf
      ensures bufUsed == 0
      ensures HState() == Compress(old(HState()), old(buf[..bufUsed]) + Zeros(BLOCK - old(bufUsed)))
    {
      ghost var start, used := buf[..bufUsed], bufUsed;
      ZeroTo(BLOCK);
      assert buf[..] == start + Zeros(BLOCK - used);
      ProcessBlock();
      bufUsed := 0;
    }

    /** Zeros up to the length field, the length field, and the last compression. */
    method LastBlock(ghost n: nat)
      requires Shape() && bufUsed <= 56 && lenBits + U64 * wraps == 8 * n
      modifies this`bufUsed, h, buf
      ensures HState() == Compress(old(HState()), old(buf[..bufUsed]) + Zeros(56 - old(bufUsed)) + LengthField(n))
    {
      ghost var start, used := buf[..bufUsed], bufUsed;
      ZeroTo(56);
      assert buf[..56] == start + Zeros(56 - used);
      PutLength(n);
      ProcessBlock();
    }

    /** Writes the bit count into the last eight bytes of the buffer. */
    method PutLength(ghost n: nat)
      requires Shape() && lenBits + U64 * wraps == 8 * n
      modifies buf
      ensures buf[..] == old(buf[..56]) + LengthField(n)
    {
      hide LengthField;
      for i := 0 to 8
        invariant buf[..56 + i] == old(buf[..56]) + LengthField(n)[..i]
      {
        LengthOctet(n, lenBits, wraps, i);
        buf[56 + i] := (BE.Shr(lenBits, 7 - i) % 256) as bv8;
      }
    }

    /** Fills the buffer with zero bytes up to `end`. */
    method ZeroTo(end: nat)
      requires Shape() && bufUsed <= end <= BLOCK
      modifies this`bufUsed, buf
      ensures bufUsed == end
      ensures buf[..] == old(buf[..bufUsed]) + Zeros(end - old(bufUsed)) + old(buf[end..])
    {
      ghost var start, before := bufUsed, buf[..];
      while bufUsed < end
        invariant start <= bufUsed <= end
        invariant buf[..] == before[..start] + Zeros(bufUsed - start) + before[bufUsed..]
      {
        buf[bufUsed] := 0;
        bufUsed := bufUsed + 1;
      }
    }
  }

  method EightyRounds(a0: bv32, b0: bv32, c0: bv32, d0: bv32, e0: bv32, w: array<bv32>, ghost block: Octets)
    returns (a: bv32, b: bv32, c: bv32, d: bv32, e: bv32)
    requires |block| == BLOCK && w.Length == 80 && forall t :: 0 <= t < 80 ==> w[t] == W(block, t)
    ensures State(a, b, c, d, e) == Rounds(State(a0, b0, c0, d0, e0), block, 80)
  {
    a, b, c, d, e := a0, b0, c0, d0, e0;
    for i := 0 to 80
      invariant State(a, b, c, d, e) == Rounds(State(a0, b0, c0, d0, e0), block, i)
    {
      a, b, c, d, e := Round(i, a, b, c, d, e, w[i]);
    }
  }

  /** One of the eighty rounds. */
  method Round(i: nat, a0: bv32, b0: bv32, c0: bv32, d0: bv32, e0: bv32, w: bv32)
    returns (a: bv32, b: bv32, c: bv32, d: bv32, e: bv32)
    ensures State(a, b, c, d, e) == Step(State(a0, b0, c0, d0, e0), i, w)
  {
    a, b, c, d, e := a0, b0, c0, d0, e0;
    var f, k;
    if i < 20 { f := Choose(b, c, d); k := 0x5A827999; }
    else if i < 40 { f := Parity(b, c, d); k := 0x6ED9EBA1; }
    else if i < 60 { f := Majority(b, c, d); k := 0x8F1BBCDC; }
    else { f := Parity(b, c, d); k := 0xCA62C1D6; }
    var tmp := Sum(Rot(a, 5), f, e, k, w);
    e := d;
    d := c;
    c := Rot(b, 30);
    b := a;
    a := tmp;
  }

  // ---------- what callers see ----------

  function Concat(chunks: seq<Octets>): Octets {
    if chunks == [] then [] else Concat(chunks[..|chunks| - 1]) + chunks[|chunks| - 1]
  }

  /** Any sequence of updates gives the digest of what was fed, however it was cut up. */
  method HashChunks(chunks: seq<Octets>) returns (out: Octets)
    ensures out == Digest(Concat(chunks))
  {
    hide Digest, Sha1State.Buffered;
    var state := new Sha1State();
    for i := 0 to |chunks|
      invariant state.Valid() && fresh(state) && fresh(state.h) && fresh(state.buf)
      invariant state.message == Concat(chunks[..i])
    {
      assert chunks[..i + 1][..i] == chunks[..i];
      state.Update(chunks[i]);
    }
    assert chunks[..|chunks|] == chunks;
    out := state.Finalize();
  }
}
