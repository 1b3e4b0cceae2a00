/** Time-based one-time codes: RFC 6238 over the HOTP of RFC 4226, and the window check. */
module Totp {
  import BE = BigEndian
  import opened Sha1
  import Hmac

  const DIGITS := 1_000_000
  const PERIOD := 30

  function CounterOctets(counter: nat): (o: Octets)
    ensures |o| == 8
  {
    var bs := BE.Encode(counter, 8);
    seq(8, i requires 0 <= i < 8 => bs[i] as bv8)
  }

  /** Where dynamic truncation reads: the low four bits of the last byte. */
  function Offset(hs: Octets): (n: nat)
    requires |hs| == DIGEST
    ensures n + 3 < DIGEST
  {
    (hs[19] & 0x0F) as nat
  }

  /** Section 5.3 of RFC 4226: the low 31 bits of the four bytes at the offset. */
  function Truncated(hs: Octets): bv32
    requires |hs| == DIGEST
  {
    var o := Offset(hs);
    Word(hs[o], hs[o + 1], hs[o + 2], hs[o + 3]) & 0x7FFF_FFFF
  }

  /** The six-digit code of a counter. */
  function Hotp(secret: Octets, counter: nat): (code: nat)
    ensures code < DIGITS
  {
    Truncated(Hmac.Code(secret, CounterOctets(counter))) as nat % DIGITS
  }

  /** The counter of a time, through the cast to an unsigned 64-bit number. */
  function Counter(t: int): nat { t % U64 / PERIOD }

  lemma MaskThenShift(b0: bv8, b1: bv8, b2: bv8, b3: bv8)
    ensures Word(b0 & 0x7F, b1, b2, b3) == Word(b0, b1, b2, b3) & 0x7FFF_FFFF
  {}

  /** The example of section 5.4 of RFC 4226. */
  lemma TruncationExample(hs: Octets)
    requires hs == [0x1f, 0x86, 0x98, 0x69, 0x0e, 0x02, 0xca, 0x16, 0x61, 0x85, 0x50, 0xef, 0x7f, 0x19, 0xda, 0x8e, 0x94, 0x5b, 0x55, 0x5a]
    ensures Truncated(hs) == 0x50ef7f19 && Truncated(hs) as nat % 1_000_000 == 872_921
  {
    assert hs[19] == 0x5a && 0x5a & 0x0F == 0x0a as bv8;
    assert Offset(hs) == 10;
    assert Word(0x50, 0xef, 0x7f, 0x19) == 0x50ef7f19;
  }

  /** And that of Appendix D for the counter 1. */
  lemma SecondTruncationExample(hs: Octets)
    requires hs == [0x75, 0xa4, 0x8a, 0x19, 0xd4, 0xcb, 0xe1, 0x00, 0x64, 0x4e, 0x8a, 0xc1, 0x39, 0x7e, 0xea, 0x74, 0x7a, 0x2d, 0x33, 0xab]
    ensures Truncated(hs) == 0x41397eea && Truncated(hs) as nat % 1_000_000 == 287_082
  {
    assert hs[19] == 0xab && 0xab & 0x0F == 0x0b as bv8;
    assert Offset(hs) == 11;
    assert Word(0xc1, 0x39, 0x7e, 0xea) & 0x7FFF_FFFF == 0x41397eea;
  }

  /** Truncation starts at the byte that the last four bits number. */
  lemma OffsetIsLowNibble(hs: Octets)
    requires |hs| == 20
    ensures Offset(hs) == hs[19] as nat % 16
  {
    LowNibble(hs[19]);
  }

  lemma LowNibble(b: bv8)
    ensures (b & 0x0F) as nat == b as nat % 16
  {
    assert b & 0x0F == b % 16;
  }

  /** A code is the last six decimal digits of the truncated HMAC of the eight-byte counter. */
  lemma LastSixDigits(secret: Octets, counter: nat, message: Octets)
    requires |message| == 8 && forall i :: 0 <= i < 8 ==> message[i] == BE.Encode(counter, 8)[i] as bv8
    ensures 0 <= Hotp(secret, counter) <= 999_999
    ensures (Truncated(Hmac.Code(secret, message)) as nat - Hotp(secret, counter)) % 1_000_000 == 0
  {
    hide Truncated, Hmac.Code;
    assert message == CounterOctets(counter);
    hide CounterOctets;
    LastSix(Truncated(Hmac.Code(secret, message)) as nat);
  }

  lemma LastSix(p: nat)
    ensures (p - p % 1_000_000) % 1_000_000 == 0
  {}

  /** All thirty seconds of a period have its number as their counter. */
  lemma CounterOfPeriod(c: nat, r: nat)
    requires r < 30 && 30 * c + r < 0x1_0000_0000_0000_0000
    ensures Counter(30 * c + r) == c
  {}

  /** A time before the epoch is counted as the unsigned 64-bit number with its bits. */
  lemma CounterBeforeEpoch(t: int)
    requires -0x8000_0000_0000_0000 <= t < 0
    ensures Counter(t) == (t + 0x1_0000_0000_0000_0000) / 30
  {}

  method ComputeTotpCode(secret: Octets, unixSeconds: int) returns (code: nat)
    ensures code == Hotp(secret, Counter(unixSeconds))
  {
    hide Hmac.Code, Truncated, CounterOctets;
    var counter := unixSeconds % U64 / PERIOD;
    var bytes := CounterBytes(counter);
    var hmac := Hmac.ComputeHmac(secret, bytes);
    var p := Truncate(hmac);
    code := p as nat % DIGITS;
  }

  /** Dynamic truncation: the top bit is masked off the first byte before it is shifted into place. */
  method Truncate(hmac: Octets) returns (p: bv32)
    requires |hmac| == DIGEST
    ensures p == Truncated(hmac)
  {
    hide Word, Offset;
    var offset := Offset(hmac);
    MaskThenShift(hmac[offset], hmac[offset + 1], hmac[offset + 2], hmac[offset + 3]);
    p := Word(hmac[offset] & 0x7F, hmac[offset + 1], hmac[offset + 2], hmac[offset + 3]);
  }

  lemma CounterOctet(counter: nat, i: nat)
    requires i < 8
    ensures CounterOctets(counter)[i] == (BE.Shr(counter, 7 - i) % 256) as bv8
  {
    BE.ByteAt(counter, 8, i);
  }

  /** Peels the counter's bytes off from the last to the first. */
  method CounterBytes(counter: nat) returns (out: Octets)
    ensures out == CounterOctets(counter)
  {
    hide CounterOctets;
    var bytes, rest := new bv8[8], counter;
    for i := 8 downto 0
      invariant rest == BE.Shr(counter, 8 - i)
      invariant forall k :: i <= k < 8 ==> bytes[k] == CounterOctets(counter)[k]
    {
      CounterOctet(counter, i);
      BE.ShrOnce(counter, 7 - i);
      bytes[i] := (rest % 256) as bv8;
      rest := rest / 256;
    }
    out := bytes[..];
  }

  // ---------- the window ----------

  /** `code` is the code of some step at most `w` periods away from `t`. */
  ghost predicate Accepted(secret: Octets, t: int, code: int, w: int) {
    exists d :: -w <= d <= w && CodeAt(secret, t, d) == code
  }

  /** The code `d` periods from time `t`. */
  ghost function CodeAt(secret: Octets, t: int, d: int): (code: nat)
    ensures code < DIGITS
  {
    Hotp(secret, Counter(t + PERIOD * d))
  }

  /** Four bytes, most significant first, by shifting and masking. */
  function FourBytes(v: nat): BE.Bytes {
    [BE.Shr(v, 3) % 256, BE.Shr(v, 2) % 256, BE.Shr(v, 1) % 256, BE.Shr(v, 0) % 256]
  }

  lemma FourBytesEqual(v: nat, w: nat)
    requires v < DIGITS && w < DIGITS
    ensures FourBytes(v) == FourBytes(w) <==> v == w
  {
    BE.Spans();
    forall x: nat ensures BE.Encode(x, 4) == FourBytes(x) {
      BE.ByteAt(x, 4, 0);
      BE.ByteAt(x, 4, 1);
      BE.ByteAt(x, 4, 2);
      BE.ByteAt(x, 4, 3);
    }
    if FourBytes(v) == FourBytes(w) { BE.EncodeInjective(v, w, 4); }
  }

  method VerifyTotpCode(secret: Octets, unixSeconds: int, code: int, skewWindow: int) returns (ok: bool)
    ensures ok <==> Accepted(secret, unixSeconds, code, skewWindow)
    ensures ok ==> 0 <= code <= 999_999
  {
    hide Hotp, Counter, FourBytes;
    if code < 0 || code > 999_999 {
      NoSuchCode(secret, unixSeconds, code, skewWindow);
      return false;
    }
    var codeBytes, matched := FourBytes(code), 0;
    var delta := -skewWindow;
    while delta <= skewWindow
      invariant -skewWindow <= delta && (delta <= skewWindow + 1 || delta == -skewWindow) && (matched == 0 || matched == 1)
      invariant matched == 1 <==> exists d :: -skewWindow <= d < delta && CodeAt(secret, unixSeconds, d) == code
      decreases skewWindow - delta
    {
      var candidate := ComputeTotpCode(secret, unixSeconds + delta * PERIOD);
      FourBytesEqual(code, candidate);
      assert candidate == CodeAt(secret, unixSeconds, delta);
      var eq := if codeBytes == FourBytes(candidate) then 1 else 0;
      matched := if matched == 1 || eq == 1 then 1 else 0;
      delta := delta + 1;
    }
    ok := matched == 1;
  }

  lemma NoSuchCode(secret: Octets, t: int, code: int, w: int)
    requires code < 0 || code >= DIGITS
    ensures !Accepted(secret, t, code, w)
  {
    forall d ensures CodeAt(secret, t, d) != code {}
  }

  /** Moving a time by whole periods moves its counter by as many, as long as the time stays in range. */
  lemma CounterMoves(t: nat, d: int)
    requires 0 <= t + PERIOD * d < U64
    ensures Counter(t + PERIOD * d) == t / PERIOD + d
  {
    DivideMoves(t, d);
  }

  lemma DivideMoves(t: nat, d: int)
    ensures (t + 30 * d) / 30 == t / 30 + d
  {}

  /** A code made at time `s` is accepted at `t` whenever the two times' periods are at most `w` apart. */
  lemma NearbyCodeAccepted(secret: Octets, s: nat, t: nat, w: int)
    requires s < 0x8000_0000_0000_0000 && -w <= t / 30 - s / 30 <= w
    ensures Accepted(secret, t, Hotp(secret, Counter(s)), w)
  {
    hide Hotp;
    var d := s / PERIOD - t / PERIOD;
    assert t + PERIOD * d == t % PERIOD + PERIOD * (s / PERIOD);
    CounterMoves(t, d);
    CounterMoves(s, 0);
    assert CodeAt(secret, t, d) == Hotp(secret, Counter(s));
  }

  /** Away from the epoch, the accepted codes are exactly those of the 2w + 1 periods around `t`. */
  lemma AcceptedExactly(secret: Octets, t: nat, code: int, w: int)
    requires 0 <= 30 * w <= t && t + 30 * w < U64
    ensures Accepted(secret, t, code, w) <==> exists c: nat :: t / 30 - w <= c <= t / 30 + w && Hotp(secret, c) == code
  {
    hide Hotp;
    forall d | -w <= d <= w ensures t / PERIOD + d >= 0 && CodeAt(secret, t, d) == Hotp(secret, t / PERIOD + d) {
      InWindow(t, w, d);
      CounterMoves(t, d);
    }
    if Accepted(secret, t, code, w) {
      var d :| -w <= d <= w && CodeAt(secret, t, d) == code;
      var c: nat := t / PERIOD + d;
      assert Hotp(secret, c) == code;
    }
    if c: nat :| t / PERIOD - w <= c <= t / PERIOD + w && Hotp(secret, c) == code {
      assert CodeAt(secret, t, c - t / PERIOD) == code;
    }
  }

  lemma InWindow(t: nat, w: int, d: int)
    requires 0 <= 30 * w <= t && t + 30 * w < U64 && -w <= d <= w
    ensures 0 <= t + 30 * d < U64 && t / 30 + d >= 0
  {}
}
