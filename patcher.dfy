/** patchFileBlock: the consistency checks on one modifier DATA block and the
    in-place rewrite of its enum field. */
module Patcher {
  import opened Base
  import opened Codec
  import opened Header
  import opened Blocks

  /** Offset of the 64-byte modifier name inside ModifierData. */
  const MODIFIER_NAME_OFFSET: nat := 32
  const MODIFIER_NAME_LENGTH: nat := 64

  /** The command-line values patchFileBlock compares against and writes. */
  datatype PatchSpec = PatchSpec(modifierName: string, oldEnumType: int, newEnumType: int)

  /** The enum follows the `next` and `prev` pointers of ModifierData. For
      either pointer width its four bytes end before the name field. */
  function EnumOffset(ptrSize: nat): (o: nat)
    ensures ptrSize <= 8 ==> o + 4 <= MODIFIER_NAME_OFFSET
  {
    2 * ptrSize
  }

  /** `fileContent.slice(offset, offset + header.length + header.bodyLength)`
      for a header that lies in the buffer and a non-negative body length. */
  function BlockView(b: seq<byte>, off: nat, bodyLength: int): (v: View)
    requires off + BLOCK_HEADER_LENGTH <= |b| && bodyLength >= 0
    ensures v.start == off && off + BLOCK_HEADER_LENGTH <= v.end <= |b|
    ensures v.end <= off + BLOCK_HEADER_LENGTH + bodyLength
    ensures off + BLOCK_HEADER_LENGTH + bodyLength <= |b| ==> v.end == off + BLOCK_HEADER_LENGTH + bodyLength
  {
    View(off, Min(off + BLOCK_HEADER_LENGTH + bodyLength, |b|))
  }

  /** `view.slice(from)`: the same memory from `from` on, clamped to the view. */
  function SliceFrom(v: View, from: nat): (r: View)
    requires v.start <= v.end
    ensures r.end == v.end && v.start <= r.start <= r.end
    ensures v.start + from <= v.end ==> r.start == v.start + from
  {
    View(Min(v.start + from, v.end), v.end)
  }

  /** The body of the block at `off` as the view patchFileBlock works on. */
  function BodyView(b: seq<byte>, off: nat, bodyLength: int): (v: View)
    requires off + BLOCK_HEADER_LENGTH <= |b| && bodyLength >= 0
    ensures v.start == off + BLOCK_HEADER_LENGTH && v.start <= v.end <= |b|
    ensures v.end <= off + BLOCK_HEADER_LENGTH + bodyLength
  {
    SliceFrom(BlockView(b, off, bodyLength), BLOCK_HEADER_LENGTH)
  }

  /** The bytes a view shows, built from its last one backwards.
      BytesIsSlice proves this is b[v.start..v.end]. The recursive form keeps
      the slice's index facts out of the proofs that only pass a body on to
      the checks, and those that need them call the lemma. */
  function Bytes(b: seq<byte>, v: View): (s: seq<byte>)
    requires v.start <= v.end <= |b|
    ensures |s| == v.end - v.start
    decreases v.end - v.start
  {
    if v.start == v.end then [] else Bytes(b, View(v.start, v.end - 1)) + [b[v.end - 1]]
  }

  /** A view shows the slice of the buffer between its bounds. */
  lemma {:induction false} BytesIsSlice(b: seq<byte>, v: View)
    requires v.start <= v.end <= |b|
    ensures Bytes(b, v) == b[v.start..v.end]
    decreases v.end - v.start
  {
    if v.start < v.end {
      BytesIsSlice(b, View(v.start, v.end - 1));
      assert b[v.start..v.end] == b[v.start..v.end - 1] + [b[v.end - 1]];
    }
  }

  /** Index i of a view is index start + i of the buffer it shares. */
  lemma ViewByte(b: seq<byte>, v: View, i: nat)
    requires v.start <= v.end <= |b| && i < v.end - v.start
    ensures Bytes(b, v)[i] == b[v.start + i]
  {
    BytesIsSlice(b, v);
  }

  /** The checks of patchFileBlock on a block body, in the script's order:
      the enum read (which fails on an unsupported endianness) comes before
      the name comparison, and the name comparison before the enum one. */
  function CheckBody(cfg: Config, body: seq<byte>, sdnaIndex: int, spec: PatchSpec): (r: Outcome<Error>)
    ensures r.Pass? <==>
              Supported(cfg.endian) &&
              ReadString(body, MODIFIER_NAME_OFFSET, MODIFIER_NAME_LENGTH) == spec.modifierName &&
              ReadUint32(cfg.endian, body, EnumOffset(cfg.ptrSize)) == Success(spec.oldEnumType)
    ensures !Supported(cfg.endian) ==> r == Fail(UnsupportedEndianness(cfg.endian))
    ensures Supported(cfg.endian) && ReadString(body, MODIFIER_NAME_OFFSET, MODIFIER_NAME_LENGTH) != spec.modifierName ==>
              r == Fail(UnexpectedModifierName(sdnaIndex, spec.modifierName,
                                               ReadString(body, MODIFIER_NAME_OFFSET, MODIFIER_NAME_LENGTH)))
    ensures Supported(cfg.endian) && ReadString(body, MODIFIER_NAME_OFFSET, MODIFIER_NAME_LENGTH) == spec.modifierName &&
            ReadUint32(cfg.endian, body, EnumOffset(cfg.ptrSize)).value != spec.oldEnumType ==>
              r == Fail(UnexpectedEnumType(sdnaIndex, spec.oldEnumType,
                                           ReadUint32(cfg.endian, body, EnumOffset(cfg.ptrSize)).value))
  {
    var actualName := ReadString(body, MODIFIER_NAME_OFFSET, MODIFIER_NAME_LENGTH);
    var actualEnum := ReadUint32(cfg.endian, body, EnumOffset(cfg.ptrSize));
    if actualEnum.Failure? then Fail(actualEnum.error)
    else if spec.modifierName != actualName then Fail(UnexpectedModifierName(sdnaIndex, spec.modifierName, actualName))
    else if spec.oldEnumType != actualEnum.value then Fail(UnexpectedEnumType(sdnaIndex, spec.oldEnumType, actualEnum.value))
    else Pass
  }

  /** Absolute position of the enum field of the block at `off`. */
  function EnumPos(cfg: Config, off: nat): nat {
    off + BLOCK_HEADER_LENGTH + EnumOffset(cfg.ptrSize)
  }

  /** The buffer after patchFileBlock's write to the block at `off`: the new
      enum stored through the body view, so bytes that would fall past the
      body are dropped. Nothing outside the enum field, and nothing past the
      block, changes. */
  function WriteEnum(cfg: Config, b: seq<byte>, off: nat, bodyLength: int, newEnumType: int): (r: seq<byte>)
    requires Supported(cfg.endian) && off + BLOCK_HEADER_LENGTH <= |b| && bodyLength >= 0
    ensures |r| == |b|
    ensures forall i :: 0 <= i < |b| && !(EnumPos(cfg, off) <= i < EnumPos(cfg, off) + 4) ==> r[i] == b[i]
    ensures forall i :: off + BLOCK_HEADER_LENGTH + bodyLength <= i < |b| ==> r[i] == b[i]
  {
    Store(cfg.endian, b, EnumPos(cfg, off), newEnumType, BodyView(b, off, bodyLength).end)
  }

  /** When the block lies in the buffer with its body, and the body holds
      the whole enum field, the field reads back, at its absolute position,
      the new value as a signed 32-bit number. */
  lemma WriteEnumReadsBack(cfg: Config, b: seq<byte>, off: nat, bodyLength: int, newEnumType: int)
    requires Supported(cfg.endian) && bodyLength >= 0 && off + BLOCK_HEADER_LENGTH + bodyLength <= |b|
    requires EnumOffset(cfg.ptrSize) + 4 <= bodyLength
    ensures ReadUint32(cfg.endian, WriteEnum(cfg, b, off, bodyLength, newEnumType), EnumPos(cfg, off))
         == Success(ToInt32(newEnumType))
  {
    ReadAfterWrite(cfg.endian, b, EnumPos(cfg, off), newEnumType, BodyView(b, off, bodyLength).end);
  }

  /** Four bytes that end before the body of the patched block read as
      before the patch. */
  lemma WriteEnumElsewhere(cfg: Config, b: seq<byte>, off: nat, bodyLength: int, newEnumType: int, pos: nat)
    requires Supported(cfg.endian) && off + BLOCK_HEADER_LENGTH <= |b| && bodyLength >= 0
    requires pos + 4 <= off + BLOCK_HEADER_LENGTH
    ensures ReadUint32(cfg.endian, WriteEnum(cfg, b, off, bodyLength, newEnumType), pos) == ReadUint32(cfg.endian, b, pos)
  {
    WordIsLocal(cfg.endian, b, WriteEnum(cfg, b, off, bodyLength, newEnumType), pos);
  }

  /** After the write the enum field reads back the new value, as a signed
      32-bit number, whenever the whole field lies inside the body; the name
      field, which does not overlap it, reads as before. */
  lemma {:induction false} WriteEnumEffect(cfg: Config, b: seq<byte>, off: nat, bodyLength: int, newEnumType: int)
    requires Supported(cfg.endian) && off + BLOCK_HEADER_LENGTH <= |b| && bodyLength >= 0
    requires cfg.ptrSize == 4 || cfg.ptrSize == 8
    requires EnumPos(cfg, off) + 4 <= BodyView(b, off, bodyLength).end
    ensures var b' := WriteEnum(cfg, b, off, bodyLength, newEnumType);
            var body := Bytes(b, BodyView(b, off, bodyLength));
            var body' := Bytes(b', BodyView(b', off, bodyLength));
            ReadUint32(cfg.endian, body', EnumOffset(cfg.ptrSize)) == Success(ToInt32(newEnumType)) &&
            ReadString(body', MODIFIER_NAME_OFFSET, MODIFIER_NAME_LENGTH) ==
              ReadString(body, MODIFIER_NAME_OFFSET, MODIFIER_NAME_LENGTH)
  {
    var v := BodyView(b, off, bodyLength);
    var b' := WriteEnum(cfg, b, off, bodyLength, newEnumType);
    assert BodyView(b', off, bodyLength) == v;
    var e := EnumOffset(cfg.ptrSize);
    StoreThroughView(cfg.endian, b, v, e, newEnumType);
    var body := Bytes(b, v);
    var body' := Bytes(b', v);
    BytesIsSlice(b, v);
    BytesIsSlice(b', v);
    assert body' == Store(cfg.endian, body, e, newEnumType, v.end - v.start);
    ReadAfterWrite(cfg.endian, body, e, newEnumType, v.end - v.start);
    NameUntouched(body, body', e);
  }

  /** A change to the four bytes at e, ending by body offset 32, leaves the
      name field as it was. */
  lemma NameUntouched(body: seq<byte>, body': seq<byte>, e: nat)
    requires |body| == |body'| && e + 4 <= MODIFIER_NAME_OFFSET
    requires forall i :: 0 <= i < |body| && !(e <= i < e + 4) ==> body'[i] == body[i]
    ensures ReadString(body', MODIFIER_NAME_OFFSET, MODIFIER_NAME_LENGTH) == ReadString(body, MODIFIER_NAME_OFFSET, MODIFIER_NAME_LENGTH)
  {
    assert Slice(body', MODIFIER_NAME_OFFSET, MODIFIER_NAME_LENGTH) == Slice(body, MODIFIER_NAME_OFFSET, MODIFIER_NAME_LENGTH);
  }

  /** patchFileBlock. `fileBlock` is the view of the whole block; the body
      view is its slice past the header, and the reads and the write all go
      through it into `file`. On a failed check nothing is written and the
      run is to abort. */
  method PatchFileBlock(config: FileConfig, file: array<byte>, fileBlock: View, header: BlockHeader, spec: PatchSpec,
                        ghost cfg: Config)
    returns (r: Outcome<Error>)
    requires fileBlock.start <= fileBlock.end <= file.Length
    modifies file
    requires cfg == Config(config.endian, config.ptrSize)
    ensures var body := SliceFrom(fileBlock, header.length);
            r == CheckBody(cfg, Bytes(old(file[..]), body), header.sdnaIndex, spec) &&
            (r.Fail? ==> file[..] == old(file[..])) &&
            (r.Pass? ==> file[..] == Store(cfg.endian, old(file[..]), body.start + EnumOffset(cfg.ptrSize),
                                           spec.newEnumType, body.end))
  {
    var fileBlockBody := SliceFrom(fileBlock, header.length);
    r := CheckModifier(config, file, fileBlockBody, header.sdnaIndex, spec, cfg);
    if r.Pass? {
      WriteModifierType(config, file, fileBlockBody, spec.newEnumType, cfg);
    }
  }

  /** The reads and the consistency checks of patchFileBlock, through the
      body view: the name field, then the enum (whose read fails on an
      unsupported endianness), then the two comparisons. Nothing is written. */
  method CheckModifier(config: FileConfig, file: array<byte>, fileBlockBody: View, sdnaIndex: int, spec: PatchSpec,
                       ghost cfg: Config)
    returns (r: Outcome<Error>)
    requires fileBlockBody.start <= fileBlockBody.end <= file.Length
    requires cfg == Config(config.endian, config.ptrSize)
    ensures r == CheckBody(cfg, Bytes(file[..], fileBlockBody), sdnaIndex, spec)
    ensures r.Pass? ==> Supported(cfg.endian)
  {
    var body := Bytes(file[..], fileBlockBody);
    var modifierTypeDnaFieldOffset := EnumOffset(config.ptrSize);
    var actualModifierName := ReadString(body, MODIFIER_NAME_OFFSET, MODIFIER_NAME_LENGTH);
    var actualOldEnumType := ReadUint32(config.endian, body, modifierTypeDnaFieldOffset);
    if actualOldEnumType.Failure? {
      return Fail(actualOldEnumType.error);
    }
    if spec.modifierName != actualModifierName {
      return Fail(UnexpectedModifierName(sdnaIndex, spec.modifierName, actualModifierName));
    }
    if spec.oldEnumType != actualOldEnumType.value {
      return Fail(UnexpectedEnumType(sdnaIndex, spec.oldEnumType, actualOldEnumType.value));
    }
    r := Pass;
  }

  /** The write of patchFileBlock: the new enum stored through the body view
      at twice the pointer width. It is reached only after the enum read has
      succeeded, so the endianness is supported and the store happens. */
  method WriteModifierType(config: FileConfig, file: array<byte>, fileBlockBody: View, newEnumType: int, ghost cfg: Config)
    requires fileBlockBody.start <= fileBlockBody.end <= file.Length
    requires cfg == Config(config.endian, config.ptrSize) && Supported(cfg.endian)
    modifies file
    ensures file[..] == Store(cfg.endian, old(file[..]), fileBlockBody.start + EnumOffset(cfg.ptrSize), newEnumType, fileBlockBody.end)
  {
    var written := WriteUint32(config.endian, file, fileBlockBody, EnumOffset(config.ptrSize), newEnumType);
  }
}
