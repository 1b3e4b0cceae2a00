/** Bytes and big-endian integer fields. */
module BigEndian {
  type byte = b: int | 0 <= b < 256
  type Bytes = seq<byte>

  /** 256 to the `n`: the first number that does not fit in `n` bytes. */
  function Span(n: nat): nat {
    if n == 0 then 1 else 256 * Span(n - 1)
  }

  /** The low `n` bytes of `v`, most significant first. */
  function Encode(v: nat, n: nat): (bs: Bytes)
    ensures |bs| == n
  {
    if n == 0 then [] else Encode(v / 256, n - 1) + [v % 256]
  }

  /** The number a byte string denotes. */
  function Decode(bs: Bytes): nat {
    if bs == [] then 0 else 256 * Decode(bs[..|bs| - 1]) + bs[|bs| - 1]
  }

  /** Writing a number in `n` bytes and reading it back gives the number exactly when it fits. */
  lemma {:induction false} DecodeInvertsEncode(v: nat, n: nat)
    ensures Decode(Encode(v, n)) < Span(n)
    ensures Decode(Encode(v, n)) == v <==> v < Span(n)
  {
    if n > 0 {
      DecodeInvertsEncode(v / 256, n - 1);
      var bs := Encode(v, n);
      assert bs[..n - 1] == Encode(v / 256, n - 1);
    }
  }

  /** Reading `n` bytes and writing the number back gives the bytes. */
  lemma {:induction false} EncodeInvertsDecode(bs: Bytes)
    ensures Encode(Decode(bs), |bs|) == bs
  {
    if bs != [] {
      var init, last := bs[..|bs| - 1], bs[|bs| - 1];
      EncodeInvertsDecode(init);
      assert Decode(bs) / 256 == Decode(init) && Decode(bs) % 256 == last;
      assert bs == init + [last];
    }
  }

  /** `v` shifted right by `k` bytes. */
  function Shr(v: nat, k: nat): nat {
    if k == 0 then v else Shr(v / 256, k - 1)
  }

  lemma {:induction false} ShrOnce(v: nat, k: nat)
    ensures Shr(v, k) / 256 == Shr(v, k + 1)
  {
    if k > 0 { ShrOnce(v / 256, k - 1); }
  }

  /** Byte `i` of a field is the number shifted right by the bytes after it. */
  lemma {:induction false} ByteAt(v: nat, n: nat, i: nat)
    requires i < n
    ensures Encode(v, n)[i] == Shr(v, n - 1 - i) % 256
  {
    if i < n - 1 { ByteAt(v / 256, n - 1, i); }
  }

  /** A field of `n` bytes only sees the number modulo its span. */
  lemma {:induction false} EncodeWraps(v: nat, q: nat, n: nat)
    ensures Encode(v + Span(n) * q, n) == Encode(v, n)
  {
    if n > 0 {
      assert Span(n) * q == 256 * (Span(n - 1) * q);
      EncodeWraps(v / 256, q, n - 1);
    }
  }

  /** Two numbers that fit have equal fields only if they are equal. */
  lemma EncodeInjective(v: nat, w: nat, n: nat)
    requires v < Span(n) && w < Span(n) && Encode(v, n) == Encode(w, n)
    ensures v == w
  {
    DecodeInvertsEncode(v, n);
    DecodeInvertsEncode(w, n);
  }

  lemma Spans()
    ensures Span(4) == 0x1_0000_0000 && Span(8) == 0x1_0000_0000_0000_0000
  {
    assert Span(4) == 256 * (256 * (256 * (256 * Span(0))));
    assert Span(8) == 256 * (256 * (256 * (256 * Span(4))));
  }
}
