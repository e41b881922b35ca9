/** The file header of a .blend file (readHeader) and the configuration it
    establishes: the pointer width and the endianness marker that every
    later read and write uses. */
module Header {
  import opened Base
  import opened Codec

  const MAGIC: string := "BLENDER"

  /** Pointer-width markers (byte 7 of the file header). */
  const PTR_SIZE_32: byte := 0x5f  // '_'
  const PTR_SIZE_64: byte := 0x2d  // '-'

  predicate ValidPtrMarker(m: byte) {
    m == PTR_SIZE_32 || m == PTR_SIZE_64
  }

  /** PTR_SIZE_BYTE_LEN. */
  function PtrSizeOf(m: byte): (n: nat)
    requires ValidPtrMarker(m)
    ensures n == 4 || n == 8
  {
    if m == PTR_SIZE_32 then 4 else 8
  }

  /** The script's `fileConfig`, as a value once the header is read. The
      endianness is the raw marker byte: it is checked by every read and
      write, not here. */
  datatype Config = Config(endian: byte, ptrSize: nat)

  /** The first seven bytes, normalised by readString, spell BLENDER. */
  predicate MagicOk(file: seq<byte>) {
    ReadString(file, 0, |MAGIC|) == MAGIC
  }

  /** What readHeader needs from a file it accepts: both marker bytes exist
      and the pointer marker is one of the two known ones (otherwise the
      script's ptrSize would be left undefined). */
  predicate HeaderMarkersPresent(file: seq<byte>) {
    MagicOk(file) ==> 9 <= |file| && ValidPtrMarker(file[7])
  }

  /** readHeader: fails exactly when the magic is wrong; otherwise the
      pointer width comes from byte 7 and the endianness from byte 8. */
  function ParseHeader(file: seq<byte>): (r: Result<Config, Error>)
    requires HeaderMarkersPresent(file)
    ensures r.Failure? <==> ReadString(file, 0, 7) != "BLENDER"
    ensures r.Failure? ==> r.error == NotBlenderFile
    ensures r.Success? ==> r.value.endian == file[8] && r.value.ptrSize == PtrSizeOf(file[7])
    ensures r.Success? ==> r.value.ptrSize == 4 || r.value.ptrSize == 8
  {
    if MAGIC != ReadString(file, 0, |MAGIC|) then Failure(NotBlenderFile)
    else Success(Config(file[8], PtrSizeOf(file[7])))
  }

  /** "BLENDER" as bytes. */
  const MAGIC_BYTES: seq<byte> := [0x42, 0x4c, 0x45, 0x4e, 0x44, 0x45, 0x52]

  /** The 12-byte header Blender writes: magic, pointer marker, endianness
      marker and a three-digit version. */
  function EncodeHeader(ptrSize: nat, endian: byte, version: seq<byte>): (h: seq<byte>)
    requires ptrSize == 4 || ptrSize == 8
    requires |version| == 3
    ensures |h| == 12
  {
    MAGIC_BYTES + [if ptrSize == 4 then PTR_SIZE_32 else PTR_SIZE_64, endian] + version
  }

  /** A header written with a given pointer width and endianness marker
      parses back to exactly that configuration. */
  lemma {:induction false} ParseEncodedHeader(ptrSize: nat, endian: byte, version: seq<byte>, rest: seq<byte>)
    requires ptrSize == 4 || ptrSize == 8
    requires |version| == 3
    ensures HeaderMarkersPresent(EncodeHeader(ptrSize, endian, version) + rest)
    ensures ParseHeader(EncodeHeader(ptrSize, endian, version) + rest) == Success(Config(endian, ptrSize))
  {
    var file := EncodeHeader(ptrSize, endian, version) + rest;
    var marker := if ptrSize == 4 then PTR_SIZE_32 else PTR_SIZE_64;
    assert file[..12] == MAGIC_BYTES + [marker, endian] + version;
    assert file[7] == marker && file[8] == endian;
    assert file[0..7] == MAGIC_BYTES;
    MagicOfHeader(file);
  }

  lemma MagicOfHeader(file: seq<byte>)
    requires 7 <= |file| && file[0..7] == MAGIC_BYTES
    ensures MagicOk(file)
  {
    assert Zeros(0) == [];
    assert file[0..7] == MAGIC_BYTES + Zeros(0);
    ReadPaddedField(file, 0, 7, MAGIC_BYTES);
    MagicChars();
  }

  lemma MagicChars()
    ensures Chars(MAGIC_BYTES) == MAGIC
  {
    var c := Chars(MAGIC_BYTES);
    assert c[0] == 'B' && c[1] == 'L' && c[2] == 'E' && c[3] == 'N';
    assert c[4] == 'D' && c[5] == 'E' && c[6] == 'R';
  }

  /** The script's module-level `fileConfig` object. */
  class FileConfig {
    var endian: byte
    var ptrSize: nat

    /** The defaults the script starts from: little-endian, 64-bit. */
    constructor ()
      ensures endian == LE && ptrSize == 8
    {
      endian := LE;
      ptrSize := PtrSizeOf(PTR_SIZE_64);
    }

    /** readHeader: on a wrong magic nothing is assigned and the run is to
        abort; otherwise both fields take the values of the file's markers. */
    method ReadHeader(file: seq<byte>) returns (r: Outcome<Error>)
      requires HeaderMarkersPresent(file)
      modifies this
      ensures r.Fail? <==> ParseHeader(file).Failure?
      ensures r.Fail? ==> r.error == NotBlenderFile && endian == old(endian) && ptrSize == old(ptrSize)
      ensures r.Pass? ==> Config(endian, ptrSize) == ParseHeader(file).value
    {
      var magic := ReadString(file, 0, |MAGIC|);
      if MAGIC != magic {
        return Fail(NotBlenderFile);
      }
      assert 9 <= |file| && ValidPtrMarker(file[7]);
      ptrSize, endian := PtrSizeOf(file[7]), file[8];
      r := Pass;
    }
  }
}
