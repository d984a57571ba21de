# GenomeCompressor in Dafny

A model of the 2-bit genome codec in `src/GenomeCompressor.java`, with proofs
of what it promises.

`compress` reads a string over the nucleotides A, C, G, T. It writes a 32-bit
header and then each nucleotide as a 2-bit code: A = 0, C = 1, G = 2, T = 3.
The header is `length * 2`, the number of payload bits. `close` zero-pads the
last partial byte.

`expand` reads the header back as a signed `int`. It then loops with a counter
that starts at 0 and steps by 2 until it reaches the header. Each pass reads
two bits and writes the matching nucleotide from its inverse table.

The project has five modules:

- `Bits`: bit strings (`seq<bool>`, most significant bit first), bytes, and
  packing bits into bytes with zero padding.
- `JavaInt`: Java's 32-bit `int`. It covers the two's-complement view of a
  32-bit pattern and wrapping `+` and `*`.
- `BinaryIO`: the bit-granular output and input streams the codec drives, as
  classes. `BitWriter` appends bits and packs them into bytes on `Close`.
  `BitReader` walks the bits of a byte sequence with a cursor.
- `GenomeCompressor`:
  - the code tables, built as arrays element by element like the source;
  - `Compress` and `Expand` as methods with loop invariants;
  - the functions that specify them: `Frame` for the bytes `Compress` emits
    and `Expanded` for the result of `Expand`.
- `GenomeProperties`: what the codec promises, proved about `Frame` and
  `Expanded`:
  - the round trip;
  - the header value and the frame size;
  - the bits `Expand` reads;
  - long and truncated input;
  - worked examples.

Inputs and outputs are sequences of 8-bit character codes. An operation that
fails returns `Err`:

- a character above 'T' indexes past the end of the compressor's table
  (`CharOutsideTable`, with its position);
- a read runs past the end of the input (`EndOfInput`).

Behaviour of the code that the model keeps:

- The header holds `2 * length`, the bit count, not the symbol count. "ACGT"
  gets the header 8.
- A character up to 'T' that is not a nucleotide is not rejected. It gets
  code 0, because the table is a zero-filled `int['T' + 1]`, and comes back
  as 'A'.
- A character above 'T' fails with an array index error, not a symbol check.
  It is modelled as `CharOutsideTable`.
- `length * 2` is Java `int` arithmetic. From 2^30 nucleotides on, the header
  wraps to a negative number and `expand` returns nothing, so the round trip
  holds exactly for genomes shorter than 2^30 (`RoundTrip`).
- The header `0x7FFFFFFF` makes the counter wrap before it reaches the header,
  so `expand` reads until the input runs out.

## Model

| member | source | states |
|---|---|---|
| JavaInt.AsInt32 | src/GenomeCompressor.java:63 | the `int` a 32-bit pattern stands for is in the `int` range and equals the pattern or the pattern minus 2^32 |
| JavaInt.AsUnsigned | src/GenomeCompressor.java:41 | the 32-bit pattern of an `int` is below 2^32 and reads back, through `AsInt32`, as the same `int` |
| JavaInt.Wrap | src/GenomeCompressor.java:41 | wrapping gives an `int` whose pattern is the exact value modulo 2^32, and leaves values already in range unchanged |
| JavaInt.Add | src/GenomeCompressor.java:73 | `i += 2` on an `int` agrees with wrapping the exact sum and keeps its parity |
| JavaInt.Mul | src/GenomeCompressor.java:41 | `length * 2` on `int`s has the pattern of the exact product modulo 2^32, and is the exact product when that fits |
| Bits.ToBits | src/GenomeCompressor.java:47 | writing `v` in `w` bits gives exactly `w` bits |
| Bits.FromToBits | src/GenomeCompressor.java:68 | reading back the `w` bits written for a `v` below 2^w gives `v` |
| Bits.ToFromBits | src/GenomeCompressor.java:68 | writing the number a bit string spells, at the string's width, gives the string back |
| Bits.FromToWord | src/GenomeCompressor.java:41 | the 32 bits written for a header below 2^32 read back as that header |
| Bits.WordBound | src/GenomeCompressor.java:63 | the 32 header bits spell a number below 2^32 |
| Bits.PairBound | src/GenomeCompressor.java:68-70 | two bits spell a number below 4, so the inverse table is never indexed out of bounds |
| Bits.ToBitsSplit | src/GenomeCompressor.java:41 | the wide encoding of `hi * 2^w + lo` is `hi`'s bits followed by `lo`'s `w` bits |
| Bits.BytesToBits | src/GenomeCompressor.java:63 | a byte sequence unpacks to eight bits per byte |
| Bits.BytesToBitsAppend | src/GenomeCompressor.java:72 | unpacking distributes over concatenation of byte sequences |
| Bits.Pack | src/GenomeCompressor.java:49 | packing `n` bits gives `ceil(n / 8)` bytes |
| Bits.ByteOf | src/GenomeCompressor.java:49 | the byte eight bits are packed into unpacks to exactly those eight bits |
| Bits.PackBytes | src/GenomeCompressor.java:75 | packing whole bytes' worth of bits gives those bytes, followed by the packing of what comes after |
| Bits.PackOfBytes | src/GenomeCompressor.java:75 | packing the bits of a byte sequence gives the byte sequence back |
| Bits.UnpackPack | src/GenomeCompressor.java:49 | unpacking what was packed gives the bits followed by zero padding to a whole byte |
| Bits.FromBitsZeros | src/GenomeCompressor.java:49 | zero padding bits spell 0 |
| BinaryIO.BitWriter.constructor | src/GenomeCompressor.java:41 | a new output stream is open and has written nothing |
| BinaryIO.BitWriter.WriteBits | src/GenomeCompressor.java:47 | `write(x, r)` appends exactly the low `r` bits of `x`, most significant first, and changes nothing else |
| BinaryIO.BitWriter.WriteByte | src/GenomeCompressor.java:72 | writing a `char` appends its eight bits |
| BinaryIO.BitWriter.WriteInt | src/GenomeCompressor.java:41 | writing an `int` appends its 32-bit two's-complement pattern |
| BinaryIO.BitWriter.Close | src/GenomeCompressor.java:49 | closing emits the written bits packed into bytes with the last byte zero-padded, and closes the stream |
| BinaryIO.BitReader.constructor | src/GenomeCompressor.java:63 | a new input stream holds the bits of the input bytes with its cursor at the start |
| BinaryIO.BitReader.ReadBits | src/GenomeCompressor.java:68 | `readInt(r)` consumes exactly the next `r` bits and returns the number they spell |
| BinaryIO.BitReader.ReadInt | src/GenomeCompressor.java:63 | `readInt()` consumes exactly 32 bits and returns the `int` whose pattern they are |
| GenomeCompressor.CodeOf | src/GenomeCompressor.java:32-36 | every character up to 'T' gets a code below 4, and a non-nucleotide gets the code of A |
| GenomeCompressor.LetterOf | src/GenomeCompressor.java:57-61 | every code below 4 decodes to a nucleotide |
| GenomeCompressor.TablesAreInverse | src/GenomeCompressor.java:32-61 | the two tables are inverse bijections between {A, C, G, T} and 0..3, in both directions |
| GenomeCompressor.NewCodeTable | src/GenomeCompressor.java:32-36 | the compressor's array has `'T' + 1` slots and holds `CodeOf` in each |
| GenomeCompressor.NewLetterTable | src/GenomeCompressor.java:57-61 | the expander's array has 4 slots and holds `LetterOf` in each |
| GenomeCompressor.CodeBits | src/GenomeCompressor.java:43-48 | every character contributes exactly two code bits |
| GenomeCompressor.FrameBits | src/GenomeCompressor.java:41-48 | the written bit stream is `32 + 2 * length` bits long |
| GenomeCompressor.Decode | src/GenomeCompressor.java:66-74 | decoding `count` two-bit groups yields `count` characters |
| GenomeCompressor.Header | src/GenomeCompressor.java:63 | the header of a frame, read as a signed `int`, is in the `int` range |
| GenomeCompressor.CounterStep | src/GenomeCompressor.java:73 | after a pass the counter is still an even `int` tracking twice the reads, unless the header is `MaxInt` |
| GenomeCompressor.CounterExit | src/GenomeCompressor.java:66 | when the loop exits, the header is not `MaxInt` and the reads made are exactly enough to cover it |
| GenomeCompressor.DecodeStep | src/GenomeCompressor.java:68-72 | one pass reads a code below 4 and appends its nucleotide to the decoded output |
| GenomeCompressor.ExpandCompletes | src/GenomeCompressor.java:66-75 | when the loop exits after `k` reads, the result is the first `k` decoded characters |
| GenomeCompressor.Compress | src/GenomeCompressor.java:30-50 | `compress` fails exactly when a character lies above 'T', at the first such position; otherwise it emits `Frame(genome)` |
| GenomeCompressor.Expand | src/GenomeCompressor.java:55-76 | `expand` returns exactly `Expanded(frame)`: `ceil(header / 2)` decoded nucleotides, or `EndOfInput` when the input runs out first |
| GenomeProperties.Canonical | src/GenomeCompressor.java:33-36 | what comes back for a genome has its length, one character per character |
| GenomeProperties.CanonicalForm | src/GenomeCompressor.java:32-36 | a genome over {A, C, G, T} comes back as itself, and any other character up to 'T' comes back as 'A' |
| GenomeProperties.DecodeCodeBits | src/GenomeCompressor.java:43-74 | decoding the code bits of a genome, whatever follows them, gives its canonical form |
| GenomeProperties.DecodePrefix | src/GenomeCompressor.java:66-74 | decoding `k` characters depends only on the first `2k` bits |
| GenomeProperties.DecodeIsGenome | src/GenomeCompressor.java:57-70 | every decoded character is a nucleotide |
| GenomeProperties.FrameLayout | src/GenomeCompressor.java:41-49 | a frame's bits are the 32-bit header `2 * length`, the codes, and zero padding |
| GenomeProperties.FrameSize | src/GenomeCompressor.java:41-49 | the bit stream is `32 + 2L` bits long, the frame is `4 + ceil(L / 4)` bytes, and the padding is under a byte |
| GenomeProperties.FrameHeader | src/GenomeCompressor.java:39-41 | the header bits hold `2 * length`, the payload bit count; read as an `int` they are `length * 2` in Java arithmetic, and exactly `2 * length` below 2^30 nucleotides |
| GenomeProperties.FramePayload | src/GenomeCompressor.java:43-49 | after the header, a frame holds the codes and then only zero padding |
| GenomeProperties.ExpandPayload | src/GenomeCompressor.java:63-74 | a frame with header `2 * length` whose payload starts with a genome's codes expands to that genome's canonical form |
| GenomeProperties.ExpandCompressed | src/GenomeCompressor.java:41-74 | expanding what `compress` writes gives the input back, with non-nucleotides as 'A', below 2^30 nucleotides |
| GenomeProperties.LongGenomeExpandsEmpty | src/GenomeCompressor.java:41-66 | from 2^30 nucleotides on the header wraps negative and `expand` returns nothing |
| GenomeProperties.RoundTrip | src/GenomeCompressor.java:41-74 | for a genome over {A, C, G, T}, `expand(compress(s)) == s` exactly when its length is below 2^30 |
| GenomeProperties.ExpandedOutput | src/GenomeCompressor.java:63-74 | a successful `expand` emits exactly `ceil(header / 2)` characters, all nucleotides |
| GenomeProperties.SamePrefixSameDecode | src/GenomeCompressor.java:63-74 | bit strings that agree on the header and the first `2k` payload bits have the same header and decode to the same `k` characters |
| GenomeProperties.ExpandReadsOnlyPayload | src/GenomeCompressor.java:63-74 | `expand` depends only on the header and the `2 * ceil(header / 2)` bits after it; padding is never read |
| GenomeProperties.ExpandIgnoresTrailing | src/GenomeCompressor.java:63-74 | bytes after a successfully expanded frame do not change the result |
| GenomeProperties.ExpandTruncated | src/GenomeCompressor.java:63-68 | cutting a frame whose payload reaches into its last byte, at any point, makes `expand` fail with `EndOfInput`, while reading the header when the cut falls inside it and before the last code otherwise |
| GenomeProperties.DropLastKeepsHeader | src/GenomeCompressor.java:63 | dropping the last byte of a frame longer than four bytes leaves its header unchanged |
| GenomeProperties.PrefixKeepsHeader | src/GenomeCompressor.java:63 | cutting a frame anywhere after its first four bytes leaves its header unchanged |
| GenomeProperties.TruncatedFrameFails | src/GenomeCompressor.java:63-68 | for 1 to 2^30 - 1 nucleotides, every proper prefix of a compressed frame, header included, fails with `EndOfInput` instead of being padded silently |
| GenomeProperties.LongTruncatedFrameExpandsEmpty | src/GenomeCompressor.java:41-66 | from 2^30 nucleotides on, a compressed frame cut anywhere after its header expands to nothing: the wrapped header hides the truncation |
| GenomeProperties.HeaderWordSplit | src/GenomeCompressor.java:41 | the 32 header bits of a value below 256 are 24 zero bits followed by the value's eight bits |
| GenomeProperties.HeaderBytes | src/GenomeCompressor.java:41 | a header below 256 is written as three zero bytes and the header's byte |
| GenomeProperties.CodeBitsACGT | src/GenomeCompressor.java:43-48 | the codes of "ACGT" are 00 01 10 11 |
| GenomeProperties.CompressExampleACGT | src/GenomeCompressor.java:41-49 | "ACGT" compresses to the header 0x00000008 and the byte 0x1B |
| GenomeProperties.CompressExampleA | src/GenomeCompressor.java:41-49 | "A" compresses to the header 0x00000002 and the byte 0x00 |
| GenomeProperties.EmptyExample | src/GenomeCompressor.java:39-75 | the empty genome compresses to a 4-byte zero header, which expands to nothing |

## Left out

- `main` (src/GenomeCompressor.java:85-90) is left out. It only parses the command-line flag, and its error on a bad flag is argument handling.
- Standard input and output are not modelled as I/O. `compress` and `expand` take the input bytes as a parameter and return the output bytes.
- `BinaryStdIn` and `BinaryStdOut` are not part of this model. `BinaryIO` models what the codec relies on:
  - writing bits most significant first;
  - packing the bits into bytes on close, with the last byte zero-padded;
  - reading bits in the same order.
- The library's exception on reading past the end of input is modelled as `Err(EndOfInput)` from `Expand`. `BitReader` itself requires enough bits to remain.
- Output written before an exception is not modelled. `Compress` and `Expand` return `Err` with no partial frame or partial sequence.
- `readString` is modelled as a sequence of 8-bit character codes. Its character decoding is left out.
- BinaryIO.BitWriter.WriteBits: writes the low `width` bits of any value. It leaves out the library's range check that the value fits in `width` bits, which every call in the codec meets (codes are below 4, characters below 256).
- BinaryIO.BitWriter.Close: keeps every written bit until closing and packs them all then. The library emits each byte as soon as it is full, which gives the same bytes.
- BinaryIO.BitWriter: writing to a closed stream is excluded by a precondition (`!closed`) rather than modelled as an error.
- The empty genome is treated as valid input (`EmptyExample`). How the input library's `readString` behaves on empty input is not part of this model.
- GenomeCompressor.Compress: requires the genome's length to be at most `MaxInt`, the largest length a Java string can have.
