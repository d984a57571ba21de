/**
 * Bit strings and bytes: the vocabulary of the bit-granular streams the
 * codec writes and reads. A bit string is a `seq<bool>`, most significant
 * bit first; a byte holds eight such bits; a bit string is packed into bytes
 * by filling each byte from its high bit down and zero-padding the low bits
 * of the last one.
 */
module Bits {

  newtype byte = x: int | 0 <= x < 256

  function Pow2(k: nat): (r: nat)
    ensures r >= 1
  {
    if k == 0 then 1 else 2 * Pow2(k - 1)
  }

  lemma {:induction false} Pow2Add(a: nat, b: nat)
    ensures Pow2(a + b) == Pow2(a) * Pow2(b)
  {
    if a > 0 {
      Pow2Add(a - 1, b);
    }
  }

  lemma Pow2Byte()
    ensures Pow2(8) == 256
  {
  }

  lemma Pow2Word()
    ensures Pow2(32) == 0x1_0000_0000
  {
    Pow2Byte();
    Pow2Add(8, 8);
    Pow2Add(16, 16);
  }

  /** A 32-bit string spells a number below 2^32. */
  lemma WordBound(bs: seq<bool>)
    requires |bs| == 32
    ensures FromBits(bs) < 0x1_0000_0000
  {
    Pow2Word();
    FromBitsBound(bs);
  }

  /** Reading back the 32 bits written for a number below 2^32 gives the number. */
  lemma FromToWord(v: nat)
    requires v < 0x1_0000_0000
    ensures FromBits(ToBits(v, 32)) == v
  {
    Pow2Word();
    FromToBits(v, 32);
  }

  // Sequence identities. They describe nothing in the codec: the proofs below
  // call them to hand the verifier one rewriting step at a time.

  lemma AppendEmpty<T>(s: seq<T>)
    ensures [] + s == s && s + [] == s
  {
  }

  lemma PrefixBounds<T>(s: seq<T>)
    ensures s[..0] == [] && s[..|s|] == s
  {
  }

  lemma AppendAssoc<T>(a: seq<T>, b: seq<T>, c: seq<T>)
    ensures (a + b) + c == a + (b + c)
  {
  }

  lemma AppendAssoc5<T>(a: seq<T>, b: seq<T>, c: seq<T>, d: seq<T>, e: seq<T>)
    ensures (((a + b) + c) + d) + e == a + (b + (c + (d + e)))
  {
    AppendAssoc(a + b, c, d);
    AppendAssoc(a, b, c + d);
    AppendAssoc(a, b + (c + d), e);
    AppendAssoc(b, c + d, e);
    AppendAssoc(c, d, e);
  }

  lemma AppendSplit<T>(a: seq<T>, b: seq<T>)
    ensures (a + b)[0..|a|] == a && (a + b)[|a|..] == b
  {
  }

  lemma PrefixSlices<T>(s: seq<T>, m: nat, n: nat)
    requires m <= n <= |s|
    ensures s[..n][0..m] == s[0..m] && s[..n][m..] == s[m..][..n - m]
  {
  }

  function Zeros(k: nat): (z: seq<bool>)
    ensures |z| == k && forall i :: 0 <= i < k ==> !z[i]
  {
    seq(k, _ => false)
  }

  /** The low `w` bits of `v`, most significant first. */
  function ToBits(v: nat, w: nat): (bs: seq<bool>)
    ensures |bs| == w
  {
    if w == 0 then [] else ToBits(v / 2, w - 1) + [v % 2 == 1]
  }

  /** The unsigned number that `bs` spells, most significant bit first. */
  function FromBits(bs: seq<bool>): (n: nat)
  {
    if bs == [] then 0
    else 2 * FromBits(bs[..|bs| - 1]) + (if bs[|bs| - 1] then 1 else 0)
  }

  /** A string of `w` bits spells a number below 2^w. */
  lemma {:induction false} FromBitsBound(bs: seq<bool>)
    ensures FromBits(bs) < Pow2(|bs|)
  {
    if bs != [] {
      FromBitsBound(bs[..|bs| - 1]);
    }
  }

  lemma {:induction false} FromBitsZeros(k: nat)
    ensures FromBits(Zeros(k)) == 0
  {
    if k > 0 {
      assert Zeros(k)[..k - 1] == Zeros(k - 1);
      FromBitsZeros(k - 1);
    }
  }

  lemma PairBound(bs: seq<bool>)
    requires |bs| == 2
    ensures FromBits(bs) < 4
  {
    FromBitsBound(bs);
  }

  lemma FromBitsSnoc(bs: seq<bool>, b: bool)
    ensures FromBits(bs + [b]) == 2 * FromBits(bs) + (if b then 1 else 0)
  {
    assert (bs + [b])[..|bs|] == bs;
  }

  /** Reading back the `w` bits written for `v` gives `v`, when `v` fits. */
  lemma {:induction false} FromToBits(v: nat, w: nat)
    requires v < Pow2(w)
    ensures FromBits(ToBits(v, w)) == v
  {
    if w > 0 {
      FromToBits(v / 2, w - 1);
      FromBitsSnoc(ToBits(v / 2, w - 1), v % 2 == 1);
    }
  }

  /** Writing the number a bit string spells, at its width, gives the string back. */
  lemma {:induction false} ToFromBits(bs: seq<bool>)
    ensures ToBits(FromBits(bs), |bs|) == bs
  {
    if bs != [] {
      var init := bs[..|bs| - 1];
      ToFromBits(init);
      var v := FromBits(bs);
      assert v / 2 == FromBits(init);
      assert bs == init + [bs[|bs| - 1]];
    }
  }

  /** The `k + w`-bit encoding of `hi * 2^w + lo` is `hi`'s `k` bits followed by `lo`'s `w` bits. */
  lemma {:induction false} ToBitsSplit(hi: nat, lo: nat, k: nat, w: nat)
    requires lo < Pow2(w)
    ensures ToBits(hi * Pow2(w) + lo, k + w) == ToBits(hi, k) + ToBits(lo, w)
  {
    if w == 0 {
      assert hi * Pow2(w) + lo == hi;
    } else {
      var v := hi * Pow2(w) + lo;
      assert hi * Pow2(w) == 2 * (hi * Pow2(w - 1));
      assert v / 2 == hi * Pow2(w - 1) + lo / 2 && v % 2 == lo % 2;
      ToBitsSplit(hi, lo / 2, k, w - 1);
      AppendAssoc(ToBits(hi, k), ToBits(lo / 2, w - 1), [lo % 2 == 1]);
    }
  }

  /** `v` shifted right by `k` places: the unsigned `>>>` of the bit-level streams. */
  function ShiftRight(v: nat, k: nat): (r: nat)
  {
    if k == 0 then v else ShiftRight(v / 2, k - 1)
  }

  /** Bit `j` of the `w`-bit encoding of `v` is the matching binary digit of `v`. */
  lemma {:induction false} ToBitsAt(v: nat, w: nat, j: nat)
    requires j < w
    ensures ToBits(v, w)[j] == (ShiftRight(v, w - 1 - j) % 2 == 1)
  {
    if j < w - 1 {
      ToBitsAt(v / 2, w - 1, j);
    }
  }

  /** The bits of a byte sequence, each byte most significant bit first. */
  function BytesToBits(bytes: seq<byte>): (bs: seq<bool>)
    ensures |bs| == 8 * |bytes|
  {
    if bytes == [] then [] else ToBits(bytes[0] as nat, 8) + BytesToBits(bytes[1..])
  }

  lemma BytesToBitsCons(b: byte, rest: seq<byte>)
    ensures BytesToBits([b] + rest) == ToBits(b as nat, 8) + BytesToBits(rest)
  {
    assert ([b] + rest)[1..] == rest;
  }

  lemma {:induction false} BytesToBitsAppend(a: seq<byte>, b: seq<byte>)
    ensures BytesToBits(a + b) == BytesToBits(a) + BytesToBits(b)
  {
    if a != [] {
      BytesToBitsAppend(a[1..], b);
      var head := ToBits(a[0] as nat, 8);
      assert (a + b)[0] == a[0];
      assert (a + b)[1..] == a[1..] + b;
      calc {
        BytesToBits(a + b);
        head + BytesToBits(a[1..] + b);
        head + (BytesToBits(a[1..]) + BytesToBits(b));
        (head + BytesToBits(a[1..])) + BytesToBits(b);
      }
    } else {
      assert a + b == b;
    }
  }

  /**
   * Packs a bit string into bytes: eight bits per byte, high bit first, the
   * unused low bits of a final partial byte set to zero.
   */
  function Pack(bits: seq<bool>): (bytes: seq<byte>)
    ensures |bytes| == (|bits| + 7) / 8
    decreases |bits|
  {
    if bits == [] then []
    else if |bits| < 8 then [ByteOf(bits + Zeros(8 - |bits|))]
    else [ByteOf(bits[..8])] + Pack(bits[8..])
  }

  /** The byte eight bits spell. */
  function ByteOf(octet: seq<bool>): (b: byte)
    requires |octet| == 8
    ensures b as nat == FromBits(octet)
    ensures ToBits(b as nat, 8) == octet
  {
    ToFromBits(octet);
    FromBitsBound(octet);
    Pow2Byte();
    FromBits(octet) as byte
  }

  /** Packing whole bytes' worth of bits gives those bytes back, whatever follows. */
  lemma {:induction false} PackBytes(bytes: seq<byte>, tail: seq<bool>)
    ensures Pack(BytesToBits(bytes) + tail) == bytes + Pack(tail)
  {
    if bytes != [] {
      var bits := BytesToBits(bytes) + tail;
      var rest := BytesToBits(bytes[1..]) + tail;
      assert bits[..8] == ToBits(bytes[0] as nat, 8);
      assert bits[8..] == rest;
      Pow2Byte();
      FromToBits(bytes[0] as nat, 8);
      PackBytes(bytes[1..], tail);
      assert Pack(bits) == [FromBits(bits[..8]) as byte] + Pack(bits[8..]);
      assert bytes == [bytes[0]] + bytes[1..];
    } else {
      assert BytesToBits(bytes) + tail == tail;
    }
  }

  lemma PackOfBytes(bytes: seq<byte>)
    ensures Pack(BytesToBits(bytes)) == bytes
  {
    PackBytes(bytes, []);
    assert BytesToBits(bytes) + [] == BytesToBits(bytes);
  }

  /** Unpacking what `Pack` produced gives the bit string followed by the zero padding. */
  lemma {:induction false} UnpackPack(bits: seq<bool>)
    ensures BytesToBits(Pack(bits)) == bits + Zeros(8 * |Pack(bits)| - |bits|)
    decreases |bits|
  {
    if bits == [] {
    } else if |bits| < 8 {
      var padded := bits + Zeros(8 - |bits|);
      ToFromBits(padded);
      assert Pack(bits) == [ByteOf(padded)];
      assert BytesToBits(Pack(bits)) == ToBits(FromBits(padded), 8) + [];
    } else {
      UnpackPack(bits[8..]);
      ToFromBits(bits[..8]);
      var p := Pack(bits);
      assert p[1..] == Pack(bits[8..]);
      assert BytesToBits(p) == ToBits(FromBits(bits[..8]), 8) + BytesToBits(Pack(bits[8..]));
      assert bits == bits[..8] + bits[8..];
    }
  }
}
