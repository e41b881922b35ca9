/** File blocks: the 24-byte block header (readFileBlockHeader) and the
    sequence of blocks the main loop walks from offset 12 to the ENDB block. */
module Blocks {
  import opened Base
  import opened Codec

  const BLOCK_HEADER_LENGTH: nat := 24
  const FILEBLOCKS_OFFSET: nat := 12
  const CODE_LENGTH: nat := 4

  /** What readFileBlockHeader returns. The layout is fixed at 24 bytes:
      code at +0, body length at +4, SDNA index at +16, count at +20. */
  datatype BlockHeader = BlockHeader(
    code: string,
    bodyLength: int,
    sdnaIndex: int,
    count: int,
    length: nat,
    absoluteBodyOffset: nat)

  /** readFileBlockHeader at `off`. The first uint32 read fails, and with it
      the whole header, exactly when the endianness marker is unsupported. */
  function ReadFileBlockHeader(endian: byte, b: seq<byte>, off: nat): (r: Result<BlockHeader, Error>)
    ensures r.Failure? <==> !Supported(endian)
    ensures r.Failure? ==> r.error == UnsupportedEndianness(endian)
    ensures r.Success? ==> r.value.length == BLOCK_HEADER_LENGTH
    ensures r.Success? ==> r.value.absoluteBodyOffset == off + BLOCK_HEADER_LENGTH
    ensures r.Success? ==> |r.value.code| <= CODE_LENGTH
  {
    if !Supported(endian) then Failure(UnsupportedEndianness(endian))
    else
      Success(BlockHeader(
        ReadString(b, off, CODE_LENGTH),
        ReadUint32(endian, b, off + 4).value,
        ReadUint32(endian, b, off + 16).value,
        ReadUint32(endian, b, off + 20).value,
        BLOCK_HEADER_LENGTH,
        off + BLOCK_HEADER_LENGTH))
  }

  /** The header at `off` once the endianness is known to be supported. */
  function HeaderAt(endian: byte, b: seq<byte>, off: nat): BlockHeader
    requires Supported(endian)
  {
    ReadFileBlockHeader(endian, b, off).value
  }

  /** The body length field of the header at `off`. */
  function BodyLengthAt(endian: byte, b: seq<byte>, off: nat): (n: int)
    requires Supported(endian)
    ensures -TWO_31 <= n < TWO_31
  {
    ReadUint32(endian, b, off + 4).value
  }

  /** The SDNA index field of the header at `off`. */
  function SdnaIndexAt(endian: byte, b: seq<byte>, off: nat): (n: int)
    requires Supported(endian)
    ensures -TWO_31 <= n < TWO_31
  {
    ReadUint32(endian, b, off + 16).value
  }

  /** `header.absoluteBodyOffset + header.bodyLength`: where the loop goes next. */
  function NextOffset(h: BlockHeader): int {
    h.absoluteBodyOffset + h.bodyLength
  }

  /** The block codes the loop looks for, as the bytes of the file. */
  const ENDB_BYTES: seq<byte> := [0x45, 0x4e, 0x44, 0x42]
  const DATA_BYTES: seq<byte> := [0x44, 0x41, 0x54, 0x41]

  /** The four code bytes at `off` are exactly `code`. */
  predicate CodeAt(b: seq<byte>, off: nat, code: seq<byte>)
    requires |code| == CODE_LENGTH
  {
    off + CODE_LENGTH <= |b| &&
    b[off] == code[0] && b[off + 1] == code[1] && b[off + 2] == code[2] && b[off + 3] == code[3]
  }

  /** The block sequence from `off` is well formed: every header lies in
      the buffer, every block before the ENDB block has a non-negative body
      length, and an ENDB block is reached. The script checks none of this;
      without it the loop reads past the end or never stops. */
  predicate Chain(endian: byte, b: seq<byte>, off: nat)
    decreases |b| - off
  {
    off + BLOCK_HEADER_LENGTH <= |b| &&
    (Supported(endian) ==>
      CodeAt(b, off, ENDB_BYTES) ||
      (var n := BodyLengthAt(endian, b, off);
       n >= 0 && Chain(endian, b, off + BLOCK_HEADER_LENGTH + n)))
  }

  /** From a block that is not ENDB a well-formed sequence goes on past a
      non-negative body length, and the next header lies in the buffer too. */
  lemma ChainNext(endian: byte, b: seq<byte>, off: nat)
    requires Supported(endian) && Chain(endian, b, off) && !CodeAt(b, off, ENDB_BYTES)
    ensures var n := BodyLengthAt(endian, b, off);
            n >= 0 && Chain(endian, b, off + BLOCK_HEADER_LENGTH + n) && off + BLOCK_HEADER_LENGTH + n + BLOCK_HEADER_LENGTH <= |b|
  {
  }

  /** What the loop learns from the header of one block: where it is,
      whether its code is ENDB or DATA, its body length and SDNA index. */
  datatype BlockInfo = BlockInfo(offset: nat, isEndb: bool, isData: bool, bodyLength: int, sdnaIndex: int)

  function InfoAt(endian: byte, b: seq<byte>, off: nat): (info: BlockInfo)
    requires Supported(endian)
    ensures info.offset == off
    ensures -TWO_31 <= info.bodyLength < TWO_31 && -TWO_31 <= info.sdnaIndex < TWO_31
    ensures !(info.isEndb && info.isData)
  {
    BlockInfo(off, CodeAt(b, off, ENDB_BYTES), CodeAt(b, off, DATA_BYTES),
              BodyLengthAt(endian, b, off), SdnaIndexAt(endian, b, off))
  }

  /** The blocks the loop visits, in file order: it starts at `off`, steps
      by 24 + bodyLength, and stops with the first ENDB block. */
  function BlockSequence(endian: byte, b: seq<byte>, off: nat): (bs: seq<BlockInfo>)
    requires Supported(endian) && Chain(endian, b, off)
    ensures |bs| >= 1 && bs[0] == InfoAt(endian, b, off)
    ensures bs[|bs| - 1].isEndb
    ensures forall i :: 0 <= i < |bs| - 1 ==> !bs[i].isEndb && bs[i].bodyLength >= 0
    decreases |b| - off
  {
    var info := InfoAt(endian, b, off);
    if info.isEndb then
      [info]
    else
      var rest := BlockSequence(endian, b, off + BLOCK_HEADER_LENGTH + info.bodyLength);
      var bs := [info] + rest;
      assert bs[|bs| - 1] == rest[|rest| - 1];
      assert forall i :: 0 < i < |bs| ==> bs[i] == rest[i - 1];
      bs
  }

  /** Every entry of the sequence is what the header at its offset says,
      and each block but the last is followed by the one its body length
      points to. */
  lemma {:induction false} BlockSequenceAt(endian: byte, b: seq<byte>, off: nat, i: nat)
    requires Supported(endian) && Chain(endian, b, off)
    requires i < |BlockSequence(endian, b, off)|
    ensures var bs := BlockSequence(endian, b, off);
            bs[i] == InfoAt(endian, b, bs[i].offset) &&
            off <= bs[i].offset && bs[i].offset + BLOCK_HEADER_LENGTH <= |b| &&
            (i + 1 < |bs| ==> bs[i + 1].offset == bs[i].offset + BLOCK_HEADER_LENGTH + bs[i].bodyLength)
    decreases i
  {
    var bs := BlockSequence(endian, b, off);
    if i > 0 || 1 < |bs| {
      var info := InfoAt(endian, b, off);
      var next := off + BLOCK_HEADER_LENGTH + info.bodyLength;
      var rest := BlockSequence(endian, b, next);
      assert bs == [info] + rest;
      if i > 0 {
        BlockSequenceAt(endian, b, next, i - 1);
        assert bs[i] == rest[i - 1];
        if i + 1 < |bs| {
          assert bs[i + 1] == rest[i];
        }
      }
    }
  }

  /** The code readFileBlockHeader returns equals a four-letter code with
      no NUL and no whitespace exactly when the four bytes spell it. */
  lemma {:induction false} CodeIs(b: seq<byte>, off: nat, code: seq<byte>)
    requires |code| == CODE_LENGTH && 0 !in code
    requires forall i :: 0 <= i < |code| ==> !IsSpace(code[i] as char)
    ensures ReadString(b, off, CODE_LENGTH) == Chars(code) <==> CodeAt(b, off, code)
  {
    if CodeAt(b, off, code) {
      assert Zeros(0) == [];
      assert b[off..off + CODE_LENGTH] == code + Zeros(0);
      ReadPaddedField(b, off, CODE_LENGTH, code);
    }
    if ReadString(b, off, CODE_LENGTH) == Chars(code) {
      var raw := Slice(b, off, CODE_LENGTH);
      FullLengthRead(raw);
      assert off + CODE_LENGTH <= |b|;
      CharsInjective(raw, code);
    }
  }

  lemma EndbChars()
    ensures Chars(ENDB_BYTES) == "ENDB"
  {
    var c := Chars(ENDB_BYTES);
    assert c[0] == 'E' && c[1] == 'N' && c[2] == 'D' && c[3] == 'B';
  }

  lemma DataChars()
    ensures Chars(DATA_BYTES) == "DATA"
  {
    var c := Chars(DATA_BYTES);
    assert c[0] == 'D' && c[1] == 'A' && c[2] == 'T' && c[3] == 'A';
  }

  /** What the loop tests on a header, in terms of the bytes it came from:
      the code is "ENDB" or "DATA" exactly when the four code bytes spell it
      (trimming and NUL removal cannot produce a four-letter code from
      anything else), and the integer fields are the words at +4 and +16. */
  lemma HeaderFields(endian: byte, b: seq<byte>, off: nat)
    requires Supported(endian)
    ensures HeaderAt(endian, b, off).code == "ENDB" <==> CodeAt(b, off, ENDB_BYTES)
    ensures HeaderAt(endian, b, off).code == "DATA" <==> CodeAt(b, off, DATA_BYTES)
    ensures HeaderAt(endian, b, off).bodyLength == BodyLengthAt(endian, b, off)
    ensures HeaderAt(endian, b, off).sdnaIndex == SdnaIndexAt(endian, b, off)
    ensures NextOffset(HeaderAt(endian, b, off)) == off + BLOCK_HEADER_LENGTH + BodyLengthAt(endian, b, off)
  {
    EndbChars();
    DataChars();
    CodeIs(b, off, ENDB_BYTES);
    CodeIs(b, off, DATA_BYTES);
  }

  /** Four code bytes, a body length, eight bytes of old pointer, an SDNA
      index and a count: the header layout the reader expects. */
  function EncodeBlockHeader(endian: byte, code: seq<byte>, bodyLength: int, oldPtr: seq<byte>, sdnaIndex: int, count: int): (h: seq<byte>)
    requires Supported(endian) && |code| == CODE_LENGTH && |oldPtr| == 8
    ensures |h| == BLOCK_HEADER_LENGTH
  {
    code + EncodeUint32(endian, bodyLength) + oldPtr + EncodeUint32(endian, sdnaIndex) + EncodeUint32(endian, count)
  }

  /** Reading an encoded header gives back its fields: the code as the
      NUL-padded name it holds, the integers as signed 32-bit values. */
  lemma {:induction false} ReadEncodedBlockHeader(endian: byte, b: seq<byte>, off: nat, name: seq<byte>,
                                                  bodyLength: int, oldPtr: seq<byte>, sdnaIndex: int, count: int)
    requires Supported(endian) && |name| <= CODE_LENGTH && |oldPtr| == 8
    requires 0 !in name
    requires name != [] ==> !IsSpace(name[0] as char) && !IsSpace(name[|name| - 1] as char)
    requires off + BLOCK_HEADER_LENGTH <= |b|
    requires b[off..off + BLOCK_HEADER_LENGTH]
          == EncodeBlockHeader(endian, name + Zeros(CODE_LENGTH - |name|), bodyLength, oldPtr, sdnaIndex, count)
    ensures ReadFileBlockHeader(endian, b, off)
         == Success(BlockHeader(Chars(name), ToInt32(bodyLength), ToInt32(sdnaIndex), ToInt32(count),
                                BLOCK_HEADER_LENGTH, off + BLOCK_HEADER_LENGTH))
  {
    var code := name + Zeros(CODE_LENGTH - |name|);
    EncodedHeaderParts(endian, b, off, code, bodyLength, oldPtr, sdnaIndex, count);
    ReadPaddedField(b, off, CODE_LENGTH, name);
    ReadEncoded(endian, b, off + 4, bodyLength);
    ReadEncoded(endian, b, off + 16, sdnaIndex);
    ReadEncoded(endian, b, off + 20, count);
  }

  /** Where the parts of an encoded header sit among its 24 bytes. */
  lemma {:induction false} EncodedHeaderParts(endian: byte, b: seq<byte>, off: nat, code: seq<byte>,
                                              bodyLength: int, oldPtr: seq<byte>, sdnaIndex: int, count: int)
    requires Supported(endian) && |code| == CODE_LENGTH && |oldPtr| == 8
    requires off + BLOCK_HEADER_LENGTH <= |b|
    requires b[off..off + BLOCK_HEADER_LENGTH] == EncodeBlockHeader(endian, code, bodyLength, oldPtr, sdnaIndex, count)
    ensures b[off..off + 4] == code
    ensures b[off + 4..off + 8] == EncodeUint32(endian, bodyLength)
    ensures b[off + 16..off + 20] == EncodeUint32(endian, sdnaIndex)
    ensures b[off + 20..off + 24] == EncodeUint32(endian, count)
  {
    var e1, e2, e3 := EncodeUint32(endian, bodyLength), EncodeUint32(endian, sdnaIndex), EncodeUint32(endian, count);
    var h := EncodeBlockHeader(endian, code, bodyLength, oldPtr, sdnaIndex, count);
    assert h == code + e1 + oldPtr + e2 + e3;
    forall k | 0 <= k < 4
      ensures b[off + k] == code[k] && b[off + 4 + k] == e1[k]
      ensures b[off + 16 + k] == e2[k] && b[off + 20 + k] == e3[k]
    {
      assert b[off + k] == h[k] && b[off + 4 + k] == h[4 + k];
      assert b[off + 16 + k] == h[16 + k] && b[off + 20 + k] == h[20 + k];
    }
    assert b[off..off + 4] == code;
    assert b[off + 4..off + 8] == e1;
    assert b[off + 16..off + 20] == e2;
    assert b[off + 20..off + 24] == e3;
  }

  /** A block header depends on its own 24 bytes and nothing else. */
  lemma HeaderIsLocal(endian: byte, b: seq<byte>, b': seq<byte>, off: nat)
    requires off + BLOCK_HEADER_LENGTH <= |b| && off + BLOCK_HEADER_LENGTH <= |b'|
    requires b[off..off + BLOCK_HEADER_LENGTH] == b'[off..off + BLOCK_HEADER_LENGTH]
    ensures ReadFileBlockHeader(endian, b, off) == ReadFileBlockHeader(endian, b', off)
  {
    assert forall i :: off <= i < off + BLOCK_HEADER_LENGTH ==> b[i] == b'[i] by {
      forall i | off <= i < off + BLOCK_HEADER_LENGTH
        ensures b[i] == b'[i]
      {
        assert b[i] == b[off..off + BLOCK_HEADER_LENGTH][i - off];
        assert b'[i] == b'[off..off + BLOCK_HEADER_LENGTH][i - off];
      }
    }
    assert Slice(b, off, CODE_LENGTH) == Slice(b', off, CODE_LENGTH);
  }

  /** A word depends on its own four bytes and nothing else. */
  lemma WordIsLocal(endian: byte, b: seq<byte>, b': seq<byte>, o: nat)
    requires o + 4 <= |b| && o + 4 <= |b'|
    requires forall i :: o <= i < o + 4 ==> b[i] == b'[i]
    ensures ReadUint32(endian, b, o) == ReadUint32(endian, b', o)
  {
    assert ByteAt(b, o) == ByteAt(b', o) && ByteAt(b, o + 1) == ByteAt(b', o + 1);
    assert ByteAt(b, o + 2) == ByteAt(b', o + 2) && ByteAt(b, o + 3) == ByteAt(b', o + 3);
  }

  /** Two buffers of the same length that agree from `off` on have the same
      block sequence from `off`: bytes before a block never affect the walk
      from it. */
  lemma {:induction false} ChainOfAgreeingSuffix(endian: byte, b: seq<byte>, b': seq<byte>, off: nat)
    requires |b| == |b'|
    requires forall i :: off <= i < |b| ==> b[i] == b'[i]
    ensures Chain(endian, b, off) == Chain(endian, b', off)
    decreases |b| - off
  {
    if off + BLOCK_HEADER_LENGTH <= |b| && Supported(endian) {
      assert b[off..off + CODE_LENGTH] == b'[off..off + CODE_LENGTH];
      var n := BodyLengthAt(endian, b, off);
      WordIsLocal(endian, b, b', off + 4);
      if !CodeAt(b, off, ENDB_BYTES) && n >= 0 {
        ChainOfAgreeingSuffix(endian, b, b', off + BLOCK_HEADER_LENGTH + n);
      }
    }
  }
}
