/** HMAC over SHA-1, against section 2 of RFC 2104. */
module Hmac {
  import opened Sha1

  /** Every byte of `k` xored with `pad`. */
  function Masked(k: Octets, pad: bv8): (m: Octets)
    ensures |m| == |k|
  {
    seq(|k|, i requires 0 <= i < |k| => k[i] ^ pad)
  }

  /** The key as one block: hashed first if it is longer than a block, then filled with zeros. */
  function BlockKey(key: Octets): (k: Octets)
    ensures |k| == BLOCK
  {
    var short := if |key| > BLOCK then Digest(key) else key;
    short + Zeros(BLOCK - |short|)
  }

  /** H(K xor opad, H(K xor ipad, text)). */
  function Code(key: Octets, text: Octets): (o: Octets)
    ensures |o| == DIGEST
  {
    Digest(Masked(BlockKey(key), 0x5C) + Digest(Masked(BlockKey(key), 0x36) + text))
  }

  /**
   * Section 2 of RFC 2104, for any block `k` that is the key, or its digest if it is longer than 64 bytes, with zeros
   * after it, and any `inner` and `outer` that are `k` xored with 0x36 and 0x5C bytes.
   */
  lemma AsTheStandardSays(key: Octets, text: Octets, k: Octets, inner: Octets, outer: Octets)
    requires |k| == |inner| == |outer| == 64
    requires var short := if |key| <= 64 then key else Digest(key);
             short <= k && forall i :: |short| <= i < 64 ==> k[i] == 0
    requires forall i :: 0 <= i < 64 ==> inner[i] ^ k[i] == 0x36 && outer[i] ^ k[i] == 0x5C
    ensures Code(key, text) == Digest(outer + Digest(inner + text))
  {
    hide Digest;
    assert k == BlockKey(key);
    forall i | 0 <= i < 64 ensures inner[i] == k[i] ^ 0x36 && outer[i] == k[i] ^ 0x5C {
      XorBack(inner[i], k[i], 0x36);
      XorBack(outer[i], k[i], 0x5C);
    }
    assert inner == Masked(k, 0x36) && outer == Masked(k, 0x5C);
  }

  lemma XorBack(a: bv8, b: bv8, c: bv8)
    requires a ^ b == c
    ensures a == b ^ c
  {}

  method ComputeHmac(key: Octets, msg: Octets) returns (out: Octets)
    ensures out == Code(key, msg)
  {
    hide Digest, Sha1State.Buffered;
    var k := new bv8[BLOCK](_ => 0);
    var short := key;
    if |key| > BLOCK {
      var hs := new Sha1State();
      hs.Update(key);
      assert hs.message == key;
      short := hs.Finalize();
    }
    forall i | 0 <= i < |short| { k[i] := short[i]; }
    assert k[..] == BlockKey(key);
    var ipad, opad := Pads(k[..]);
    var inner := HashTwo(ipad, msg);
    out := HashTwo(opad, inner);
  }

  method Pads(k: Octets) returns (ipad: Octets, opad: Octets)
    requires |k| == BLOCK
    ensures ipad == Masked(k, 0x36) && opad == Masked(k, 0x5C)
  {
    var i, o := new bv8[BLOCK], new bv8[BLOCK];
    for j := 0 to BLOCK
      invariant forall n :: 0 <= n < j ==> i[n] == k[n] ^ 0x36 && o[n] == k[n] ^ 0x5C
    {
      i[j] := k[j] ^ 0x36;
      o[j] := k[j] ^ 0x5C;
    }
    ipad, opad := i[..], o[..];
  }

  /** The digest of two parts fed one after the other. */
  method HashTwo(first: Octets, second: Octets) returns (out: Octets)
    ensures out == Digest(first + second)
  {
    hide Digest, Sha1State.Buffered;
    var state := new Sha1State();
    state.Update(first);
    state.Update(second);
    assert state.message == first + second;
    out := state.Finalize();
  }
}
