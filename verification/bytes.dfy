/** Byte strings and the pieces of `struct` and file semantics the container needs. */
module ByteSeqs {
  newtype byte = x: int | 0 <= x < 256
  type Bytes = seq<byte>

  function Pow2(w: nat): nat {
    if w == 0 then 1 else 2 * Pow2(w - 1)
  }

  /** Bitwise exclusive or of the low w bits of a and b, bit by bit from the least significant. */
  function XorBits(a: nat, b: nat, w: nat): nat {
    if w == 0 then 0 else (a % 2 + b % 2) % 2 + 2 * XorBits(a / 2, b / 2, w - 1)
  }

  /** The exclusive or of w bits fits in w bits. */
  lemma {:induction false} XorBitsBound(a: nat, b: nat, w: nat)
    ensures XorBits(a, b, w) < Pow2(w)
  {
    if w > 0 {
      XorBitsBound(a / 2, b / 2, w - 1);
    }
  }

  lemma Unhalve(bit: int, t: int)
    requires 0 <= bit < 2
    ensures (bit + 2 * t) % 2 == bit && (bit + 2 * t) / 2 == t
  {
  }

  lemma Halve(a: nat, p: nat)
    requires a < 2 * p
    ensures a == a % 2 + 2 * (a / 2) && a / 2 < p
  {
  }

  lemma BitTwice(x: int, y: int)
    requires 0 <= x < 2 && 0 <= y < 2
    ensures ((x + y) % 2 + y) % 2 == x
  {
  }

  /** The low bit of an exclusive or, and what is left after it. */
  lemma XorBitsLow(a: nat, k: nat, w: nat)
    requires w > 0
    ensures XorBits(a, k, w) % 2 == (a % 2 + k % 2) % 2
    ensures XorBits(a, k, w) / 2 == XorBits(a / 2, k / 2, w - 1)
  {
    Unhalve((a % 2 + k % 2) % 2, XorBits(a / 2, k / 2, w - 1));
  }

  /** Exclusive or with the same mask twice is the identity. */
  lemma {:induction false} XorBitsTwice(a: nat, k: nat, w: nat)
    requires a < Pow2(w)
    ensures XorBits(XorBits(a, k, w), k, w) == a
  {
    if w > 0 {
      var x := XorBits(a, k, w);
      XorBitsLow(a, k, w);
      Halve(a, Pow2(w - 1));
      XorBitsTwice(a / 2, k / 2, w - 1);
      BitTwice(a % 2, k % 2);
      assert XorBits(x, k, w) == (x % 2 + k % 2) % 2 + 2 * XorBits(x / 2, k / 2, w - 1);
    }
  }

  /** The `^` of two bytes. */
  function Xor(a: byte, b: byte): byte {
    XorBitsBound(a as nat, b as nat, 8);
    XorBits(a as nat, b as nat, 8) as byte
  }

  lemma XorTwice(a: byte, k: byte)
    ensures Xor(Xor(a, k), k) == a
  {
    XorBitsTwice(a as nat, k as nat, 8);
  }

  function Zeros(n: nat): (r: Bytes)
    ensures |r| == n
    ensures forall i :: 0 <= i < n ==> r[i] == 0
  {
    seq(n, _ => 0)
  }

  /** struct's `Ns` format: the bytes cut or zero-padded to exactly n. */
  function PackFixed(b: Bytes, n: nat): (r: Bytes)
    ensures |r| == n
    ensures forall i :: 0 <= i < n ==> r[i] == if i < |b| then b[i] else 0
  {
    if |b| >= n then b[..n] else b + Zeros(n - |b|)
  }

  lemma AppendAssoc(a: Bytes, b: Bytes, c: Bytes)
    ensures (a + b) + c == a + (b + c)
  {
  }

  lemma SliceConcat(s: Bytes, i: nat, j: nat, k: nat)
    requires i <= j <= k <= |s|
    ensures s[i..j] + s[j..k] == s[i..k]
  {
  }

  lemma PackFixedExact(b: Bytes)
    ensures PackFixed(b, |b|) == b
  {
  }

  function Pow256(n: nat): (r: nat)
    ensures r >= 1
  {
    if n == 0 then 1 else 256 * Pow256(n - 1)
  }

  /** struct's little-endian unsigned integer of n bytes ('<Q' is n = 8). */
  function EncodeLE(x: nat, n: nat): (r: Bytes)
    requires x < Pow256(n)
    ensures |r| == n
  {
    if n == 0 then []
    else
      DivBound(x, Pow256(n - 1));
      [(x % 256) as byte] + EncodeLE(x / 256, n - 1)
  }

  lemma DivBound(x: nat, p: nat)
    requires x < 256 * p
    ensures x / 256 < p
  {
  }

  function DecodeLE(b: Bytes): (x: nat)
    ensures x < Pow256(|b|)
  {
    if b == [] then 0 else b[0] as int + 256 * DecodeLE(b[1..])
  }

  lemma {:induction false} DecodeEncodeLE(x: nat, n: nat)
    requires x < Pow256(n)
    ensures DecodeLE(EncodeLE(x, n)) == x
  {
    if n > 0 {
      DivBound(x, Pow256(n - 1));
      var e := EncodeLE(x, n);
      assert e[1..] == EncodeLE(x / 256, n - 1);
      assert e[0] as int == x % 256;
      DecodeEncodeLE(x / 256, n - 1);
    }
  }

  lemma {:induction false} EncodeDecodeLE(b: Bytes)
    ensures EncodeLE(DecodeLE(b), |b|) == b
  {
    if b != [] {
      EncodeDecodeLE(b[1..]);
      var lo, hi := b[0] as int, DecodeLE(b[1..]);
      var x := DecodeLE(b);
      assert x == lo + 256 * hi;
      DivModByte(lo, hi);
      assert (x % 256) as byte == b[0];
    }
  }

  lemma DivModByte(lo: int, hi: int)
    requires 0 <= lo < 256
    ensures (lo + 256 * hi) % 256 == lo && (lo + 256 * hi) / 256 == hi
  {
  }

  /**
   * The bytes of a file after writing b at cursor pos: the written range is
   * replaced, a gap past the old end reads as zeros, everything else is kept.
   */
  function Overwrite(s: Bytes, pos: nat, b: Bytes): (r: Bytes)
    ensures |r| == if pos + |b| > |s| then pos + |b| else |s|
    ensures r[pos..pos + |b|] == b
  {
    var prefix := if pos <= |s| then s[..pos] else s + Zeros(pos - |s|);
    var r := prefix + b + (if pos + |b| < |s| then s[pos + |b|..] else []);
    assert r[pos..pos + |b|] == b;
    r
  }

  /** Byte by byte: the written range is replaced, a gap past the old end is zeros, the rest is kept. */
  lemma OverwriteAt(s: Bytes, pos: nat, b: Bytes, i: nat)
    requires i < |Overwrite(s, pos, b)|
    ensures Overwrite(s, pos, b)[i] == if pos <= i < pos + |b| then b[i - pos] else if i < |s| then s[i] else 0
  {
  }

  lemma OverwriteAtEnd(s: Bytes, b: Bytes)
    ensures Overwrite(s, |s|, b) == s + b
  {
    var r := Overwrite(s, |s|, b);
    forall i | 0 <= i < |r|
      ensures r[i] == (s + b)[i]
    {
      OverwriteAt(s, |s|, b, i);
    }
  }
}
