/**
 * The 2-bit genome codec. `Compress` writes a 32-bit header holding the
 * number of payload bits (twice the number of nucleotides) and then two bits
 * per nucleotide; `Expand` reads the header and decodes two bits at a time,
 * stepping a counter by 2 until it reaches the header value. Characters and
 * output are 8-bit character codes; Java's 32-bit `int` arithmetic on the
 * header and on the loop counter is modelled explicitly.
 */
module GenomeCompressor {
  import opened Bits
  import opened JavaInt
  import opened BinaryIO

  datatype Error =
    | CharOutsideTable(position: nat)   // the code table is indexed past 'T'
    | EndOfInput                        // a read ran past the end of the input

  datatype Result<T> = Ok(value: T) | Err(error: Error)

  // ----- The code table -----

  const BitsPerChar: nat := 2
  const ABit: nat := 0
  const CBit: nat := 1
  const GBit: nat := 2
  const TBit: nat := 3

  const LetterA: byte := 'A' as byte
  const LetterC: byte := 'C' as byte
  const LetterG: byte := 'G' as byte
  const LetterT: byte := 'T' as byte

  predicate IsNucleotide(c: byte)
  {
    c == LetterA || c == LetterC || c == LetterG || c == LetterT
  }

  /** Every character is in {A, C, G, T}. */
  predicate IsGenome(g: seq<byte>)
  {
    forall i :: 0 <= i < |g| ==> IsNucleotide(g[i])
  }

  /** Every character indexes the compressor's table, whose last slot is 'T'. */
  predicate InTable(g: seq<byte>)
  {
    forall i :: 0 <= i < |g| ==> g[i] <= LetterT
  }

  /**
   * The compressor's table: an array of `'T' + 1` zeros in which only the
   * slots of A, C, G and T are set, so any other character up to 'T' gets
   * the code of A.
   */
  function CodeOf(c: byte): (code: nat)
    requires c <= LetterT
    ensures code < 4
    ensures !IsNucleotide(c) ==> code == ABit
  {
    if c == LetterA then ABit
    else if c == LetterC then CBit
    else if c == LetterG then GBit
    else if c == LetterT then TBit
    else 0
  }

  /** The expander's table, from 2-bit code back to nucleotide. */
  function LetterOf(code: nat): (c: byte)
    requires code < 4
    ensures IsNucleotide(c)
  {
    [LetterA, LetterC, LetterG, LetterT][code]
  }

  /** The two tables are inverse bijections between {A, C, G, T} and 0..3. */
  lemma TablesAreInverse()
    ensures forall c: byte :: IsNucleotide(c) ==> LetterOf(CodeOf(c)) == c
    ensures forall code: nat :: code < 4 ==> CodeOf(LetterOf(code)) == code
  {
  }

  /** Builds the compressor's table as an array indexed by character. */
  method NewCodeTable() returns (letterMap: array<nat>)
    ensures fresh(letterMap) && letterMap.Length == LetterT as int + 1
    ensures forall c :: 0 <= c < letterMap.Length ==> letterMap[c] == CodeOf(c as byte)
  {
    letterMap := new nat[LetterT as int + 1](_ => 0);
    letterMap[LetterA] := ABit;
    letterMap[LetterC] := CBit;
    letterMap[LetterG] := GBit;
    letterMap[LetterT] := TBit;
  }

  /** Builds the expander's table as an array indexed by code. */
  method NewLetterTable() returns (letterMap: array<byte>)
    ensures fresh(letterMap) && letterMap.Length == 4
    ensures forall code :: 0 <= code < 4 ==> letterMap[code] == LetterOf(code)
  {
    letterMap := new byte[4](_ => 0);
    letterMap[0] := LetterA;
    letterMap[1] := LetterC;
    letterMap[2] := LetterG;
    letterMap[3] := LetterT;
  }

  // ----- The frame -----

  /** The 2-bit codes of `g`, in order. */
  function CodeBits(g: seq<byte>): (bits: seq<bool>)
    requires InTable(g)
    ensures |bits| == 2 * |g|
  {
    if g == [] then []
    else CodeBits(g[..|g| - 1]) + ToBits(CodeOf(g[|g| - 1]), BitsPerChar)
  }

  lemma CodeBitsSnoc(g: seq<byte>, i: nat)
    requires i < |g| && InTable(g[..i + 1])
    ensures CodeBits(g[..i + 1]) == CodeBits(g[..i]) + ToBits(CodeOf(g[i]), BitsPerChar)
  {
    assert g[..i + 1][..i] == g[..i];
  }

  /** The bit count `2 * |g|` as a 32-bit header, followed by the codes. */
  function FrameBits(g: seq<byte>): (bits: seq<bool>)
    requires InTable(g)
    ensures |bits| == 32 + 2 * |g|
  {
    ToBits(2 * |g|, 32) + CodeBits(g)
  }

  /** The bytes `Compress` emits for `g`: its frame bits, zero-padded to whole bytes. */
  function Frame(g: seq<byte>): (frame: seq<byte>)
    requires InTable(g)
  {
    Pack(FrameBits(g))
  }

  /** The first `count` 2-bit groups of `body`, each mapped through the expander's table. */
  function Decode(body: seq<bool>, count: nat): (g: seq<byte>)
    requires 2 * count <= |body|
    ensures |g| == count
  {
    if count == 0 then []
    else Decode(body, count - 1) + [LetterAt(body, count - 1)]
  }

  /** The letter the `j`-th 2-bit group of `body` stands for. */
  function LetterAt(body: seq<bool>, j: nat): (c: byte)
    requires 2 * j + 2 <= |body|
  {
    var pair := body[2 * j..2 * j + 2];
    PairBound(pair);
    LetterOf(FromBits(pair))
  }

  /** The header of a frame, read as a signed `int`. */
  function Header(frame: seq<byte>): (h: int)
    requires |frame| >= 4
    ensures IsInt32(h)
  {
    WordBound(BytesToBits(frame)[0..32]);
    AsInt32(FromBits(BytesToBits(frame)[0..32]))
  }

  /** How many 2-bit reads a loop from 0 in steps of 2 makes before reaching `h`. */
  function ReadCount(h: int): (n: nat)
  {
    if h <= 0 then 0 else (h + 1) / 2
  }

  /**
   * What `Expand` produces. A header of `MaxInt` makes the counter overflow
   * before it reaches the header, so the reads go on until the input runs out.
   */
  function Expanded(frame: seq<byte>): (r: Result<seq<byte>>)
  {
    if |frame| < 4 then Err(EndOfInput)
    else if Header(frame) == MaxInt then Err(EndOfInput)
    else if 32 + 2 * ReadCount(Header(frame)) > 8 * |frame| then Err(EndOfInput)
    else Ok(Decode(BytesToBits(frame)[32..], ReadCount(Header(frame))))
  }

  /**
   * The state of `Expand`'s counter `i` after `k` reads: an even `int`, equal
   * to `2 * k` unless the header is `MaxInt`, where the counter may wrap.
   */
  ghost predicate CounterInv(length: int, i: int, k: nat)
  {
    IsInt32(i) && i % 2 == 0 && (length != MaxInt ==> i == 2 * k && k <= ReadCount(length))
  }

  lemma CounterStep(length: int, i: int, k: nat)
    requires IsInt32(length) && CounterInv(length, i, k) && i < length
    ensures CounterInv(length, Add(i, 2), k + 1)
    ensures length == MaxInt || 2 * k < length
  {
  }

  lemma CounterExit(length: int, i: int, k: nat)
    requires IsInt32(length) && CounterInv(length, i, k) && i >= length
    ensures length != MaxInt && 2 * k >= length && k <= ReadCount(length)
  {
  }

  /** One more 2-bit group decodes to one more letter, eight more output bits. */
  lemma DecodeStep(bits: seq<bool>, body: seq<bool>, k: nat)
    requires 32 + 2 * k + 2 <= |bits| && body == bits[32..]
    ensures FromBits(bits[32 + 2 * k..32 + 2 * k + 2]) < 4
    ensures BytesToBits(Decode(body, k + 1))
         == BytesToBits(Decode(body, k)) + ToBits(LetterOf(FromBits(bits[32 + 2 * k..32 + 2 * k + 2])) as nat, 8)
  {
    assert body[2 * k..2 * k + 2] == bits[32 + 2 * k..32 + 2 * k + 2];
    PairBound(body[2 * k..2 * k + 2]);
    var letter := LetterAt(body, k);
    BytesToBitsAppend(Decode(body, k), [letter]);
    assert BytesToBits([letter]) == ToBits(letter as nat, 8) + [];
  }

  /** The loop of `Expand` ran out of input before its counter reached the header. */
  lemma ExpandRunsOut(frame: seq<byte>, k: nat)
    requires |frame| >= 4
    requires Header(frame) == MaxInt || 2 * k < Header(frame)
    requires 8 * |frame| < 32 + 2 * k + 2
    ensures Expanded(frame) == Err(EndOfInput)
  {
  }

  /** The loop of `Expand` reached the header after `k` reads. */
  lemma ExpandCompletes(frame: seq<byte>, k: nat)
    requires |frame| >= 4 && Header(frame) != MaxInt
    requires 2 * k >= Header(frame) && k <= ReadCount(Header(frame))
    requires 32 + 2 * k <= 8 * |frame|
    ensures Expanded(frame) == Ok(Decode(BytesToBits(frame)[32..], k))
  {
    ReadCountReached(Header(frame), k);
    ExpandAfterReads(frame, k);
  }

  lemma ExpandAfterReads(frame: seq<byte>, k: nat)
    requires |frame| >= 4 && Header(frame) != MaxInt
    requires k == ReadCount(Header(frame)) && 32 + 2 * k <= 8 * |frame|
    ensures Expanded(frame) == Ok(Decode(BytesToBits(frame)[32..], k))
  {
  }

  lemma ReadCountReached(h: int, k: nat)
    requires 2 * k >= h && k <= ReadCount(h)
    ensures k == ReadCount(h)
  {
  }

  // ----- The codec -----

  /**
   * Compresses `genome`. A character above 'T' indexes past the end of the
   * code table, which is an error at its position.
   */
  method Compress(genome: seq<byte>) returns (r: Result<seq<byte>>)
    requires |genome| <= MaxInt   // a Java string's length is an int
    ensures r.Ok? <==> InTable(genome)
    ensures r.Ok? ==> r.value == Frame(genome)
    ensures r.Err? ==> r.error.CharOutsideTable? && r.error.position < |genome|
                       && genome[r.error.position] > LetterT
                       && InTable(genome[..r.error.position])
  {
    var letterMap := NewCodeTable();
    var length := |genome|;
    var header := Mul(length, 2);   // wraps past 2^30 nucleotides; its bit pattern stays 2 * length
    PrefixBounds(genome);
    AppendEmpty(ToBits(2 * length, 32));
    var w := new BitWriter();
    w.WriteInt(header);
    for i := 0 to length
      invariant !w.closed
      invariant InTable(genome[..i])
      invariant w.bits == ToBits(2 * length, 32) + CodeBits(genome[..i])
      invariant forall c :: 0 <= c < letterMap.Length ==> letterMap[c] == CodeOf(c as byte)
    {
      if genome[i] as int >= letterMap.Length {
        return Err(CharOutsideTable(i));
      }
      var num := letterMap[genome[i]];
      CodeBitsSnoc(genome, i);
      AppendAssoc(ToBits(2 * length, 32), CodeBits(genome[..i]), ToBits(num, BitsPerChar));
      w.WriteBits(num, BitsPerChar);
    }
    w.Close();
    return Ok(w.out);
  }

  /** Expands a frame written by `Compress`. */
  method Expand(frame: seq<byte>) returns (r: Result<seq<byte>>)
    ensures r == Expanded(frame)
  {
    var letterMap := NewLetterTable();
    var reader := new BitReader(frame);
    if reader.Remaining() < 32 {
      return Err(EndOfInput);
    }
    var length := reader.ReadInt();
    assert length == Header(frame);
    var w := new BitWriter();
    var i := 0;
    ghost var body := reader.bits[32..];
    ghost var k: nat := 0;   // characters decoded so far
    while i < length
      invariant reader.Valid()
      invariant !w.closed
      invariant reader.pos == 32 + 2 * k
      invariant CounterInv(length, i, k)
      invariant w.bits == BytesToBits(Decode(body, k))
      invariant forall c :: 0 <= c < 4 ==> letterMap[c] == LetterOf(c)
      decreases reader.Remaining()
    {
      if reader.Remaining() < BitsPerChar {
        ExpandRunsOut(frame, k);
        return Err(EndOfInput);
      }
      DecodeStep(reader.bits, body, k);
      var num := reader.ReadBits(BitsPerChar);
      var letter := letterMap[num];
      w.WriteByte(letter);
      CounterStep(length, i, k);
      i := Add(i, 2);
      k := k + 1;
    }
    CounterExit(length, i, k);
    ExpandCompletes(frame, k);
    PackOfBytes(Decode(body, k));
    w.Close();
    return Ok(w.out);
  }
}
