/**
 * `totp_secret_to_base32`: RFC 4648 base 32 without padding, from a 32-bit accumulator that is never masked.
 *
 * A bit string read most significant bit first is a number, so regrouping bits by eight and by five is
 * writing one number in two bases: 256 (BigEndian) and 32 (here).
 */
module Base32 {
  import BE = BigEndian

  /** The RFC 4648 alphabet: "A" to "Z" and "2" to "7". */
  function Letter(d: nat): char
    requires d < 32
  {
    if d < 26 then ('A' as int + d) as char else ('2' as int + d - 26) as char
  }

  /** The alphabet of section 6 of RFC 4648. */
  lemma Alphabet(d: nat)
    requires d < 32
    ensures Letter(d) == "ABCDEFGHIJKLMNOPQRSTUVWXYZ234567"[d]
  {}

  function LetterValue(c: char): nat {
    if 'A' <= c <= 'Z' then c as int - 'A' as int
    else if '2' <= c <= '7' then c as int - '2' as int + 26
    else 0
  }

  /** The low `n` groups of five bits of `v`, as symbols, most significant first. */
  function Write(v: nat, n: nat): (s: string)
    ensures |s| == n
  {
    if n == 0 then "" else Write(v / 32, n - 1) + [Letter(v % 32)]
  }

  /** The number a text denotes, five bits a symbol. */
  function Read(s: string): nat {
    if s == "" then 0 else 32 * Read(s[..|s| - 1]) + LetterValue(s[|s| - 1])
  }

  /** How many symbols `n` bytes take: their bits in fives, rounded up. */
  function Groups(n: nat): nat { (8 * n + 4) / 5 }

  /** Section 6 of RFC 4648 without padding characters: zero bits on the right complete the last group of five. */
  function Encoded(data: BE.Bytes): string {
    var n := Groups(|data|);
    Write(Doubled(BE.Decode(data), 5 * n - 8 * |data|), n)
  }

  /** The whole bytes in a text's bits; the bits that do not fill a byte are dropped. */
  function Decoded(text: string): BE.Bytes {
    var n := 5 * |text| / 8;
    BE.Encode(Shr(Read(text), 5 * |text| - 8 * n), n)
  }

  // ---------- doubling and halving ----------

  /** `x` shifted left by `k` bits, with no limit on its size. */
  function Doubled(x: int, k: nat): (y: int)
    ensures x >= 0 ==> y >= 0
    decreases k, x
  {
    if k == 0 then x else 2 * Doubled(x, k - 1)
  }

  /** `x` shifted right by `k` bits, rounding down. */
  function Shr(x: int, k: nat): (y: int)
    ensures x >= 0 ==> y >= 0
    decreases k, x
  {
    if k == 0 then x else Shr(x, k - 1) / 2
  }

  lemma {:induction false} DoubledAdds(x: int, j: nat, k: nat)
    ensures Doubled(Doubled(x, j), k) == Doubled(x, j + k)
    decreases k
  {
    if k > 0 { DoubledAdds(x, j, k - 1); }
  }

  lemma {:induction false} ShrAdds(x: int, j: nat, k: nat)
    ensures Shr(Shr(x, j), k) == Shr(x, j + k)
    decreases k
  {
    if k > 0 { ShrAdds(x, j, k - 1); }
  }

  lemma DoubledByFiveOrEight(x: int)
    ensures Doubled(x, 4) == 16 * x && Doubled(x, 5) == 32 * x && Doubled(x, 8) == 256 * x
  {
    assert Doubled(x, 1) == 2 * x && Doubled(x, 2) == 4 * x;
    assert Doubled(x, 4) == 16 * x;
    assert Doubled(x, 6) == 64 * x;
  }

  lemma ShrByFiveOrEight(x: int)
    ensures Shr(x, 5) == x / 32 && Shr(x, 8) == x / 256
  {
    assert Shr(x, 1) == x / 2 && Shr(x, 2) == x / 4;
    assert Shr(x, 4) == x / 16;
    assert Shr(x, 6) == x / 64;
  }

  /** Halving undoes doubling, and passes over a multiple of a larger power of two. */
  lemma {:induction false} ShrPastDoubled(x: int, m: int, j: nat, k: nat)
    requires k <= j
    ensures Shr(x + Doubled(m, j), k) == Shr(x, k) + Doubled(m, j - k)
    decreases k
  {
    if k > 0 { ShrPastDoubled(x, m, j, k - 1); }
  }

  // ---------- the round trip ----------

  lemma {:induction false} ReadInvertsWrite(v: nat, n: nat)
    requires v < Doubled(1, 5 * n)
    ensures Read(Write(v, n)) == v
  {
    if n > 0 {
      DoubledAdds(1, 5 * n - 5, 5);
      DoubledByFiveOrEight(Doubled(1, 5 * n - 5));
      ReadInvertsWrite(v / 32, n - 1);
      var s := Write(v, n);
      assert s[..n - 1] == Write(v / 32, n - 1) && LetterValue(s[n - 1]) == v % 32;
    }
  }

  /** A byte string is below the power of two that its bits allow. */
  lemma {:induction false} DecodeBound(data: BE.Bytes)
    ensures BE.Decode(data) < Doubled(1, 8 * |data|)
  {
    if data != [] {
      DecodeBound(data[..|data| - 1]);
      DoubledAdds(1, 8 * |data| - 8, 8);
      DoubledByFiveOrEight(Doubled(1, 8 * |data| - 8));
    }
  }

  lemma {:induction false} DoubledMonotonic(v: nat, w: nat, k: nat)
    requires v < w
    ensures Doubled(v, k) < Doubled(w, k)
    decreases k
  {
    if k > 0 { DoubledMonotonic(v, w, k - 1); }
  }

  /** The secret can be recovered from its text, whatever its length, and the text has ceil(8n/5) symbols. */
  lemma DecodeInvertsEncode(data: BE.Bytes)
    ensures Decoded(Encoded(data)) == data
    ensures 8 * |data| <= 5 * |Encoded(data)| < 8 * |data| + 5
  {
    var n, v := Groups(|data|), BE.Decode(data);
    var fill := 5 * n - 8 * |data|;
    assert Doubled(v, 0) == v;
    hide Doubled, Shr, Read, Write;
    DecodeBound(data);
    DoubledMonotonic(v, Doubled(1, 8 * |data|), fill);
    DoubledAdds(1, 8 * |data|, fill);
    ReadInvertsWrite(Doubled(v, fill), n);
    ShrPastDoubled(0, v, fill, fill);
    ShrOfZero(fill);
    BE.EncodeInvertsDecode(data);
    assert 5 * n / 8 == |data|;
  }

  /** The first and the last of the examples of section 10 of RFC 4648: "f" and "foobar". */
  lemma Examples(f: BE.Bytes, foobar: BE.Bytes)
    requires f == [0x66] && foobar == [0x66, 0x6f, 0x6f, 0x62, 0x61, 0x72]
    ensures Encoded(f) == "MY" && Encoded(foobar) == "MZXW6YTBOI"
  {
    FNumberAndText(f);
    hide Write, Doubled, BE.Decode;
    FoobarNumber(foobar);
    FoobarText();
  }

  lemma FNumberAndText(f: BE.Bytes)
    requires f == [0x66]
    ensures Doubled(BE.Decode(f), 2) == 0x198 && Write(0x198, 2) == "MY"
  {
    assert f[..0] == [] && BE.Decode(f) == 0x66;
    assert Write(0xc, 1) == "M";
  }

  lemma FoobarNumber(foobar: BE.Bytes)
    requires foobar == [0x66, 0x6f, 0x6f, 0x62, 0x61, 0x72]
    ensures Doubled(BE.Decode(foobar), 2) == 0x199bdbd8985c8
  {
    assert foobar[..5] == [0x66, 0x6f, 0x6f, 0x62, 0x61] && foobar[..5][..4] == [0x66, 0x6f, 0x6f, 0x62];
    assert [0x66, 0x6f, 0x6f, 0x62][..3] == [0x66, 0x6f, 0x6f] && [0x66, 0x6f, 0x6f][..2] == [0x66, 0x6f] && [0x66, 0x6f][..1] == [0x66];
    assert [0x66][..0] == [] && BE.Decode([0x66]) == 0x66;
    assert BE.Decode([0x66, 0x6f]) == 0x666f;
    assert BE.Decode([0x66, 0x6f, 0x6f]) == 0x666f6f;
    assert BE.Decode([0x66, 0x6f, 0x6f, 0x62]) == 0x666f6f62;
    assert BE.Decode(foobar[..5]) == 0x666f6f6261;
    assert BE.Decode(foobar) == 0x666f6f626172;
  }

  lemma FoobarText()
    ensures Write(0x199bdbd8985c8, 10) == "MZXW6YTBOI"
  {
    assert Write(0xc, 1) == "M";
    assert Write(0x199, 2) == "MZ";
    assert Write(0x3337, 3) == "MZX";
    assert Write(0x666f6, 4) == "MZXW";
    assert Write(0xccdede, 5) == "MZXW6";
    assert Write(0x199bdbd8, 6) == "MZXW6Y";
    assert Write(0x3337b7b13, 7) == "MZXW6YT";
    assert Write(0x666f6f6261, 8) == "MZXW6YTB";
    assert Write(0xccdedec4c2e, 9) == "MZXW6YTBO";
  }

  lemma {:induction false} ShrOfZero(k: nat)
    ensures Shr(0, k) == 0
  {
    if k > 0 { ShrOfZero(k - 1); }
  }

  // ---------- the accumulator ----------

  /** A value as a signed 32-bit register keeps it. */
  function Int32(x: int): int {
    (x + 0x8000_0000) % 0x1_0000_0000 - 0x8000_0000
  }

  /** `buf` agrees with the true value `v` of all the bits read so far in its low 32 bits. */
  ghost predicate Holds(buf: int, v: int) {
    exists m :: buf == v + Doubled(m, 32)
  }

  lemma Doubled32(m: int)
    ensures Doubled(m, 32) == 0x1_0000_0000 * m
  {
    DoubledByFiveOrEight(m);
    DoubledAdds(m, 8, 8);
    DoubledByFiveOrEight(Doubled(m, 8));
    DoubledAdds(m, 16, 8);
    DoubledByFiveOrEight(Doubled(m, 16));
    DoubledAdds(m, 24, 8);
    DoubledByFiveOrEight(Doubled(m, 24));
  }

  lemma Int32Holds(x: int)
    ensures Holds(Int32(x), x)
  {
    var m := -((x + 0x8000_0000) / 0x1_0000_0000);
    Doubled32(m);
    assert Int32(x) == x + Doubled(m, 32);
  }

  lemma HoldsLinear(buf: int, v: int, a: int, b: int)
    requires Holds(buf, v)
    ensures Holds(a * buf + b, a * v + b)
  {
    var m :| buf == v + Doubled(m, 32);
    Doubled32(m);
    Doubled32(a * m);
    assert a * buf == a * v + a * Doubled(m, 32);
    assert a * (0x1_0000_0000 * m) == 0x1_0000_0000 * (a * m);
    assert a * buf + b == a * v + b + Doubled(a * m, 32);
  }

  lemma HoldsTrans(buf: int, v: int, w: int)
    requires Holds(buf, v) && Holds(v, w)
    ensures Holds(buf, w)
  {
    var m :| buf == v + Doubled(m, 32);
    var n :| v == w + Doubled(n, 32);
    Doubled32(m);
    Doubled32(n);
    Doubled32(m + n);
    assert buf == w + Doubled(m + n, 32);
  }

  /** Five bits read at offset 27 or below are the true ones. */
  lemma ReadsTrueBits(buf: int, v: int, k: nat)
    requires Holds(buf, v) && k <= 27
    ensures Shr(buf, k) % 32 == Shr(v, k) % 32
  {
    hide Doubled, Shr;
    var m :| buf == v + Doubled(m, 32);
    ShrPastDoubled(v, m, 32, k);
    DoubledAdds(m, 27 - k, 5);
    DoubledByFiveOrEight(Doubled(m, 27 - k));
    SameLastFive(Shr(v, k), Doubled(m, 27 - k));
  }

  lemma SameLastFive(x: int, y: int)
    ensures (x + 32 * y) % 32 == x % 32
  {}

  /** `(buf << 8) | b` in a 32-bit register. */
  method ShiftIn(buf: int, b: BE.byte, ghost v: nat) returns (r: int)
    requires Holds(buf, v)
    ensures r == Int32(256 * buf) + b
    ensures Holds(r, 256 * v + b)
  {
    r := Int32(256 * buf) + b;
    Int32Holds(256 * buf);
    HoldsLinear(Int32(256 * buf), 256 * buf, 1, b);
    HoldsLinear(buf, v, 256, b);
    HoldsTrans(r, 256 * buf + b, 256 * v + b);
  }

  /** `buf << k` in a 32-bit register, one doubling at a time. */
  method ShiftLeft(buf: int, k: nat, ghost v: nat) returns (r: int)
    requires Holds(buf, v)
    ensures Holds(r, Doubled(v, k))
  {
    r := buf;
    for i := 0 to k
      invariant Holds(r, Doubled(v, i))
    {
      Int32Holds(2 * r);
      HoldsLinear(r, Doubled(v, i), 2, 0);
      HoldsTrans(Int32(2 * r), 2 * r, 2 * Doubled(v, i));
      r := Int32(2 * r);
    }
  }

  /** A byte appended below the unread bits leaves the bits already written as they were. */
  lemma WrittenBitsStay(v: nat, b: BE.byte, bits: nat)
    ensures Shr(256 * v + b, bits + 8) == Shr(v, bits)
  {
    ShrByFiveOrEight(256 * v + b);
    ShrAdds(256 * v + b, 8, bits);
  }

  lemma DecodeOneMore(data: BE.Bytes, n: nat)
    requires n < |data|
    ensures BE.Decode(data[..n + 1]) == 256 * BE.Decode(data[..n]) + data[n]
  {
    assert data[..n + 1][..n] == data[..n];
  }

  /** What has been written, and the last group filled up with zeros, is the whole text. */
  lemma Finished(data: BE.Bytes, out: string, bits: nat, last: int)
    requires 0 <= bits < 5 && bits == 8 * |data| - 5 * |out| && out == Write(Shr(BE.Decode(data), bits), |out|)
    requires bits > 0 ==> last == Doubled(BE.Decode(data), 5 - bits) % 32
    ensures 0 <= last < 32 || bits == 0
    ensures Encoded(data) == if bits > 0 then out + [Letter(last)] else out
  {
    if bits > 0 {
      LastGroup(BE.Decode(data), bits);
      assert Groups(|data|) == |out| + 1;
    } else {
      assert Groups(|data|) == |out|;
      assert Doubled(BE.Decode(data), 0) == Shr(BE.Decode(data), 0);
    }
  }

  method TotpSecretToBase32(secret: BE.Bytes) returns (out: string)
    ensures out == Encoded(secret)
  {
    hide Holds, Write, Encoded, BE.Decode, Shr, Letter;
    out := "";
    var buf, bits := 0, 0;
    ghost var v: nat := 0;
    StartsEmpty(secret);
    for n := 0 to |secret|
      invariant v == BE.Decode(secret[..n]) && Holds(buf, v)
      invariant 0 <= bits < 5 && bits == 8 * n - 5 * |out|
      invariant out == Write(Shr(v, bits), |out|)
    {
      DecodeOneMore(secret, n);
      WrittenBitsStay(v, secret[n], bits);
      buf := ShiftIn(buf, secret[n], v);
      v := 256 * v + secret[n];
      bits := bits + 8;
      out, bits := EmitGroups(out, buf, bits, v);
    }
    assert secret[..|secret|] == secret;
    Finished(secret, out, bits, Doubled(v, 5 - bits) % 32);
    if bits > 0 {
      var last := ShiftLeft(buf, 5 - bits, v);
      ReadsTrueBits(last, Doubled(v, 5 - bits), 0);
      ShrByNothing(last);
      ShrByNothing(Doubled(v, 5 - bits));
      out := out + [Letter(last % 32)];
    }
  }

  lemma ShrByNothing(x: int)
    ensures Shr(x, 0) == x
  {}

  lemma StartsEmpty(data: BE.Bytes)
    ensures BE.Decode(data[..0]) == 0 && Holds(0, 0) && Write(Shr(0, 0), 0) == ""
  {
    Doubled32(0);
    assert 0 == 0 + Doubled(0, 32);
  }

  /** The inner loop: a symbol for every five unread bits. */
  method EmitGroups(out0: string, buf: int, bits0: nat, ghost v: nat) returns (out: string, bits: nat)
    requires Holds(buf, v) && bits0 <= 32
    requires out0 == Write(Shr(v, bits0), |out0|)
    ensures bits < 5 && bits + 5 * |out| == bits0 + 5 * |out0|
    ensures out == Write(Shr(v, bits), |out|)
  {
    out, bits := out0, bits0;
    while bits >= 5
      invariant bits <= 32 && bits + 5 * |out| == bits0 + 5 * |out0|
      invariant out == Write(Shr(v, bits), |out|)
    {
      bits := bits - 5;
      ReadsTrueBits(buf, v, bits);
      ShrAdds(v, bits, 5);
      ShrByFiveOrEight(Shr(v, bits));
      out := out + [Letter(Shr(buf, bits) % 32)];
    }
  }

  lemma LastGroup(v: nat, bits: nat)
    requires bits <= 5
    ensures Doubled(v, 5 - bits) / 32 == Shr(v, bits)
  {
    ShrPastDoubled(0, v, 5 - bits, 5 - bits);
    ShrOfZero(5 - bits);
    ShrAdds(Doubled(v, 5 - bits), 5 - bits, bits);
    ShrByFiveOrEight(Doubled(v, 5 - bits));
  }
}
