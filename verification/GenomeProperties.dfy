/**
 * What the codec promises, stated over the frame `Compress` writes and the
 * result `Expand` computes: the round trip, the header, the frame size, the
 * bits `Expand` actually reads, and its behaviour on long and truncated input.
 */
module GenomeProperties {
  import opened Bits
  import opened JavaInt
  import opened GenomeCompressor

  /** What comes back for `g`: every character's code mapped through the expander's table. */
  function Canonical(g: seq<byte>): (c: seq<byte>)
    requires InTable(g)
    ensures |c| == |g|
  {
    if g == [] then []
    else Canonical(g[..|g| - 1]) + [LetterOf(CodeOf(g[|g| - 1]))]
  }

  /** A genome over {A, C, G, T} is its own canonical form; any other character up to 'T' becomes 'A'. */
  lemma {:induction false} CanonicalForm(g: seq<byte>)
    requires InTable(g)
    ensures IsGenome(g) ==> Canonical(g) == g
    ensures forall i :: 0 <= i < |g| && !IsNucleotide(g[i]) ==> Canonical(g)[i] == LetterA
  {
    if g != [] {
      var init := g[..|g| - 1];
      CanonicalForm(init);
      assert g == init + [g[|g| - 1]];
      TablesAreInverse();
    }
  }

  /** Decoding the codes of `g`, whatever bits follow them, gives back `g`'s canonical form. */
  lemma {:induction false} DecodeCodeBits(g: seq<byte>, tail: seq<bool>)
    requires InTable(g)
    ensures Decode(CodeBits(g) + tail, |g|) == Canonical(g)
  {
    if g != [] {
      var n := |g|;
      var init := g[..n - 1];
      var code := CodeOf(g[n - 1]);
      var pair := ToBits(code, BitsPerChar);
      var body := CodeBits(g) + tail;
      AppendAssoc(CodeBits(init), pair, tail);
      DecodeCodeBits(init, pair + tail);
      assert body[2 * n - 2..2 * n] == pair;
      FromToBits(code, BitsPerChar);
    }
  }

  /** Decoding only looks at the first `2 * k` bits. */
  lemma {:induction false} DecodePrefix(b1: seq<bool>, b2: seq<bool>, k: nat)
    requires 2 * k <= |b1| && 2 * k <= |b2| && b1[..2 * k] == b2[..2 * k]
    ensures Decode(b1, k) == Decode(b2, k)
  {
    if k > 0 {
      assert b1[..2 * k - 2] == b1[..2 * k][..2 * k - 2];
      assert b2[..2 * k - 2] == b2[..2 * k][..2 * k - 2];
      DecodePrefix(b1, b2, k - 1);
      assert b1[2 * k - 2..2 * k] == b1[..2 * k][2 * k - 2..2 * k];
      assert b2[2 * k - 2..2 * k] == b2[..2 * k][2 * k - 2..2 * k];
    }
  }

  /** Every decoded character is a nucleotide. */
  lemma {:induction false} DecodeIsGenome(body: seq<bool>, k: nat)
    requires 2 * k <= |body|
    ensures IsGenome(Decode(body, k))
  {
    if k > 0 {
      DecodeIsGenome(body, k - 1);
    }
  }

  /** The frame's bits are the header, the codes, and zero padding up to a whole byte. */
  lemma FrameLayout(g: seq<byte>)
    requires InTable(g)
    ensures BytesToBits(Frame(g)) == ToBits(2 * |g|, 32) + CodeBits(g) + Zeros(8 * |Frame(g)| - 32 - 2 * |g|)
  {
    UnpackPack(FrameBits(g));
  }

  /** Each nucleotide costs two bits: a frame is four header bytes and one byte per four nucleotides, rounded up. */
  lemma FrameSize(g: seq<byte>)
    requires InTable(g)
    ensures |FrameBits(g)| == 32 + BitsPerChar * |g|
    ensures |Frame(g)| == 4 + (|g| + 3) / 4
    ensures 32 + BitsPerChar * |g| <= 8 * |Frame(g)| < 32 + BitsPerChar * |g| + 8
  {
    var q := (|g| + 3) / 4;
    assert 4 * q <= |g| + 3 < 4 * q + 4;
    assert (32 + 2 * |g| + 7) / 8 == 4 + q;
  }

  /** The header holds `length * 2`, the number of payload bits, as Java computes it. */
  lemma FrameHeader(g: seq<byte>)
    requires InTable(g) && |g| <= MaxInt
    ensures |Frame(g)| >= 4
    ensures FromBits(BytesToBits(Frame(g))[0..32]) == 2 * |g|
    ensures Header(Frame(g)) == Mul(|g|, 2)
    ensures |g| <= MaxInt / 2 ==> Header(Frame(g)) == 2 * |g|
  {
    FrameLayout(g);
    FrameSize(g);
    AppendAssoc(ToBits(2 * |g|, 32), CodeBits(g), Zeros(8 * |Frame(g)| - 32 - 2 * |g|));
    AppendSplit(ToBits(2 * |g|, 32), CodeBits(g) + Zeros(8 * |Frame(g)| - 32 - 2 * |g|));
    FromToWord(2 * |g|);
  }

  /** After its 32-bit header, a frame holds the codes and then the zero padding. */
  lemma FramePayload(g: seq<byte>)
    requires InTable(g)
    ensures 32 + 2 * |g| <= 8 * |Frame(g)|
    ensures BytesToBits(Frame(g))[32..] == CodeBits(g) + Zeros(8 * |Frame(g)| - 32 - 2 * |g|)
  {
    var header := ToBits(2 * |g|, 32);
    var pad := Zeros(8 * |Frame(g)| - 32 - 2 * |g|);
    FrameLayout(g);
    AppendAssoc(header, CodeBits(g), pad);
    AppendSplit(header, CodeBits(g) + pad);
  }

  /** A frame whose header is `2 * |g|` and whose payload starts with `g`'s codes expands to `g`'s canonical form. */
  lemma ExpandPayload(frame: seq<byte>, g: seq<byte>)
    requires InTable(g) && |g| <= MaxInt / 2
    requires |frame| >= 4 && Header(frame) == 2 * |g| && 32 + 2 * |g| <= 8 * |frame|
    requires BytesToBits(frame)[32..] == CodeBits(g) + Zeros(8 * |frame| - 32 - 2 * |g|)
    ensures Expanded(frame) == Ok(Canonical(g))
  {
    DecodeCodeBits(g, Zeros(8 * |frame| - 32 - 2 * |g|));
    ExpandAfterReads(frame, |g|);
  }

  /** `Expand` undoes `Compress`, up to the mapping of non-nucleotides to 'A', while `2 * length` fits in an `int`. */
  lemma ExpandCompressed(g: seq<byte>)
    requires InTable(g) && |g| <= MaxInt / 2
    ensures Expanded(Frame(g)) == Ok(Canonical(g))
  {
    FrameHeader(g);
    FramePayload(g);
    ExpandPayload(Frame(g), g);
  }

  /** From 2^30 nucleotides on, `length * 2` wraps to a negative header and `Expand` returns nothing. */
  lemma LongGenomeExpandsEmpty(g: seq<byte>)
    requires InTable(g) && MaxInt / 2 < |g| <= MaxInt
    ensures Expanded(Frame(g)) == Ok([])
  {
    FrameHeader(g);
    assert Header(Frame(g)) < 0;
  }

  /**
   * From 2^30 nucleotides on, the wrapped negative header asks for no reads,
   * so a frame cut short anywhere after its header expands to nothing instead
   * of failing.
   */
  lemma LongTruncatedFrameExpandsEmpty(g: seq<byte>, n: nat)
    requires InTable(g) && MaxInt / 2 < |g| <= MaxInt && 4 <= n < |Frame(g)|
    ensures Expanded(Frame(g)[..n]) == Ok([])
  {
    FrameHeader(g);
    PrefixKeepsHeader(Frame(g), n);
  }

  /** The round trip: a genome comes back unchanged exactly when it is shorter than 2^30. */
  lemma RoundTrip(g: seq<byte>)
    requires IsGenome(g) && |g| <= MaxInt
    ensures Expanded(Frame(g)) == Ok(g) <==> |g| <= MaxInt / 2
  {
    assert InTable(g);
    CanonicalForm(g);
    if |g| <= MaxInt / 2 {
      ExpandCompressed(g);
    } else {
      LongGenomeExpandsEmpty(g);
    }
  }

  /** `Expand` emits one nucleotide per two-bit read, `ceil(header / 2)` of them. */
  lemma ExpandedOutput(frame: seq<byte>)
    requires Expanded(frame).Ok?
    ensures |frame| >= 4 && |Expanded(frame).value| == ReadCount(Header(frame))
    ensures IsGenome(Expanded(frame).value)
  {
    DecodeIsGenome(BytesToBits(frame)[32..], ReadCount(Header(frame)));
  }

  /** Two bit strings that agree on their first `32 + 2 * k` bits have the same header bits and decode alike. */
  lemma SamePrefixSameDecode(b1: seq<bool>, b2: seq<bool>, k: nat)
    requires 32 + 2 * k <= |b1| && 32 + 2 * k <= |b2|
    requires b1[..32 + 2 * k] == b2[..32 + 2 * k]
    ensures b1[0..32] == b2[0..32]
    ensures Decode(b1[32..], k) == Decode(b2[32..], k)
  {
    PrefixSlices(b1, 32, 32 + 2 * k);
    PrefixSlices(b2, 32, 32 + 2 * k);
    DecodePrefix(b1[32..], b2[32..], k);
  }

  /** `Expand` reads the header and `2 * ReadCount(header)` payload bits and nothing else. */
  lemma ExpandReadsOnlyPayload(frame: seq<byte>, other: seq<byte>)
    requires |frame| >= 4 && Expanded(frame).Ok?
    requires 8 * |other| >= 32 + 2 * ReadCount(Header(frame))
    requires BytesToBits(other)[..32 + 2 * ReadCount(Header(frame))]
          == BytesToBits(frame)[..32 + 2 * ReadCount(Header(frame))]
    ensures Expanded(other) == Expanded(frame)
  {
    var k := ReadCount(Header(frame));
    var b1 := BytesToBits(frame);
    var b2 := BytesToBits(other);
    SamePrefixSameDecode(b1, b2, k);
    assert Header(other) == Header(frame);
    ExpandAfterReads(frame, k);
    ExpandAfterReads(other, k);
  }

  /** Bytes after the payload are never read. */
  lemma ExpandIgnoresTrailing(frame: seq<byte>, trailing: seq<byte>)
    requires Expanded(frame).Ok?
    ensures Expanded(frame + trailing) == Expanded(frame)
  {
    var k := ReadCount(Header(frame));
    BytesToBitsAppend(frame, trailing);
    assert (BytesToBits(frame) + BytesToBits(trailing))[..32 + 2 * k] == BytesToBits(frame)[..32 + 2 * k];
    ExpandReadsOnlyPayload(frame, frame + trailing);
  }

  /** Dropping the last byte of a frame longer than its header leaves the header as it was. */
  lemma DropLastKeepsHeader(frame: seq<byte>)
    requires |frame| > 4
    ensures Header(frame[..|frame| - 1]) == Header(frame)
  {
    var short := frame[..|frame| - 1];
    assert frame == short + [frame[|frame| - 1]];
    BytesToBitsAppend(short, [frame[|frame| - 1]]);
    AppendSplit(BytesToBits(short), BytesToBits([frame[|frame| - 1]]));
    PrefixSlices(BytesToBits(short), 32, |BytesToBits(short)|);
    PrefixSlices(BytesToBits(frame), 32, |BytesToBits(short)|);
  }

  /** Cutting a frame anywhere after its header leaves the header as it was. */
  lemma {:induction false} PrefixKeepsHeader(frame: seq<byte>, n: nat)
    requires 4 <= n <= |frame|
    ensures Header(frame[..n]) == Header(frame)
    decreases |frame| - n
  {
    if n == |frame| {
      assert frame[..n] == frame;
    } else {
      PrefixKeepsHeader(frame, n + 1);
      DropLastKeepsHeader(frame[..n + 1]);
      assert frame[..n + 1][..n] == frame[..n];
    }
  }

  /** Cutting a frame whose payload reaches into its last byte leaves too few bits to read. */
  lemma ExpandTruncated(frame: seq<byte>, n: nat)
    requires 4 <= |frame| && n < |frame| && Header(frame) != MaxInt
    requires 8 * |frame| < 32 + 2 * ReadCount(Header(frame)) + 8
    ensures Expanded(frame[..n]) == Err(EndOfInput)
  {
    if 4 <= n {
      PrefixKeepsHeader(frame, n);
    }
  }

  /** A frame cut short anywhere, header included, runs out of input before its header is reached. */
  lemma TruncatedFrameFails(g: seq<byte>, n: nat)
    requires InTable(g) && 1 <= |g| <= MaxInt / 2 && n < |Frame(g)|
    ensures Expanded(Frame(g)[..n]) == Err(EndOfInput)
  {
    FrameHeader(g);
    FrameSize(g);
    ExpandTruncated(Frame(g), n);
  }

  /** The 32 bits of a header below 256 are three zero bytes' bits and then the header's eight. */
  lemma HeaderWordSplit(n: byte)
    ensures ToBits(n as nat, 32) == ((ToBits(0, 8) + ToBits(0, 8)) + ToBits(0, 8)) + ToBits(n as nat, 8)
  {
    Pow2Byte();
    ToBitsSplit(0, 0, 8, 8);
    ToBitsSplit(0, 0, 16, 8);
    ToBitsSplit(0, n as nat, 24, 8);
  }

  /** A 32-bit header below 256, followed by whole bytes, is three zero bytes and the header's byte. */
  lemma HeaderBytes(n: byte, tail: seq<byte>)
    ensures ToBits(n as nat, 32) + BytesToBits(tail) == BytesToBits([0, 0, 0, n] + tail)
  {
    var zero := ToBits(0, 8);
    var low := ToBits(n as nat, 8);
    var rest := BytesToBits(tail);
    HeaderWordSplit(n);
    assert BytesToBits([0, 0, 0, n] + tail) == zero + (zero + (zero + (low + rest))) by {
      assert [0, 0, 0, n] + tail == [0] + ([0] + ([0] + ([n] + tail)));
      BytesToBitsCons(n, tail);
      BytesToBitsCons(0, [n] + tail);
      BytesToBitsCons(0, [0] + ([n] + tail));
      BytesToBitsCons(0, [0] + ([0] + ([n] + tail)));
    }
    AppendAssoc5(zero, zero, zero, low, rest);
  }

  /** The codes of "ACGT" are 00 01 10 11, the bits of the byte 0x1B. */
  lemma CodeBitsACGT()
    ensures CodeBits([LetterA, LetterC, LetterG, LetterT]) == BytesToBits([0x1B])
  {
    var g := [LetterA, LetterC, LetterG, LetterT];
    assert CodeBits(g[..1]) == [false, false];
    assert CodeBits(g[..2]) == [false, false, false, true] by {
      assert g[..2][..1] == g[..1];
    }
    assert CodeBits(g[..3]) == [false, false, false, true, true, false] by {
      assert g[..3][..2] == g[..2];
    }
    assert CodeBits(g) == [false, false, false, true, true, false, true, true] by {
      assert g[..3] == g[..|g| - 1];
    }
    assert ToBits(0x1B, 8) == [false, false, false, true, true, false, true, true];
    BytesToBitsCons(0x1B, []);
    AppendEmpty(ToBits(0x1B, 8));
  }

  /** "ACGT" compresses to the header 8 and the single byte 00 01 10 11. */
  lemma CompressExampleACGT()
    ensures Frame([LetterA, LetterC, LetterG, LetterT]) == [0, 0, 0, 8, 0x1B]
  {
    var g := [LetterA, LetterC, LetterG, LetterT];
    var bytes: seq<byte> := [0, 0, 0, 8, 0x1B];
    CodeBitsACGT();
    HeaderBytes(8, [0x1B]);
    assert [0, 0, 0, 8] + [0x1B] == bytes;
    assert FrameBits(g) == BytesToBits(bytes);
    PackOfBytes(bytes);
  }

  /** "A" compresses to the header 2 and one zero byte: the two code bits padded with six zeros. */
  lemma CompressExampleA()
    ensures Frame([LetterA]) == [0, 0, 0, 2, 0]
  {
    var g := [LetterA];
    var header: seq<byte> := [0, 0, 0, 2];
    assert FrameBits(g) == BytesToBits(header) + [false, false] by {
      assert CodeBits(g) == [false, false];
      HeaderBytes(2, []);
      AppendEmpty(ToBits(2, 32));
      AppendEmpty(header);
    }
    assert Pack([false, false]) == [0] by {
      assert [false, false] + Zeros(6) == Zeros(8);
      FromBitsZeros(8);
    }
    PackBytes(header, [false, false]);
    assert header + [0] == [0, 0, 0, 2, 0];
  }

  /** The empty genome compresses to a zero header alone, which expands to nothing. */
  lemma EmptyExample()
    ensures Frame([]) == [0, 0, 0, 0]
    ensures Expanded([0, 0, 0, 0]) == Ok([])
  {
    var empty: seq<byte> := [];
    var frame: seq<byte> := [0, 0, 0, 0];
    assert Frame(empty) == frame by {
      HeaderBytes(0, []);
      AppendEmpty(ToBits(0, 32));
      AppendEmpty(frame);
      assert FrameBits(empty) == BytesToBits(frame);
      PackOfBytes(frame);
    }
    assert Header(frame) == 0 by {
      FrameHeader(empty);
    }
    ExpandAfterReads(frame, 0);
  }
}
