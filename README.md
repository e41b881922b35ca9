# bl_modconv in Dafny

A model of `bl_modconv.js`. The script patches a Blender `.blend` file in place.

1. It reads the file header. The header gives the magic, the pointer width and the byte-order marker.
2. It looks up the SDNA index of a modifier data struct in the file's type catalog.
3. It walks the file blocks from offset 12 to the `ENDB` block.
4. In every `DATA` block with that SDNA index, it checks two fields: the modifier name at body offset 32 and the enum at body offset `2 * ptrSize`. If both hold the expected values, it overwrites the enum with a new value.
5. It writes the buffer under a `_converted.blend` name, but only if it patched at least one block.

Any failed check aborts the run, and nothing is written.

The model has these modules, one file each:

- **Base**: `Result`, `Outcome` and the error values. The script's `die` becomes one of these errors.
- **Codec**: `readUint32`, `writeUint32` and `readString`, with Node's out-of-range behaviour:
  - an index past the end of a buffer reads as 0;
  - a write past the end of a view is dropped;
  - `Buffer.slice` clamps its bounds and shares memory with the buffer it was cut from.
- **Header**:
  - `readHeader` as a function, `ParseHeader`;
  - the module-level `fileConfig` object as the class `FileConfig`, whose method `ReadHeader` assigns its fields.
- **Blocks**:
  - `readFileBlockHeader`;
  - `Chain`, the well-formedness of the block chain;
  - `BlockSequence`, the sequence of blocks the loop visits.
- **Catalog**: the two first-match `findIndex` searches of `lookupSdnaIndexForModifierDataStruct`.
- **Patcher**: `patchFileBlock` as an imperative method. It writes into the file array through the two nested views. A pure specification of its checks and of its write sits beside it.
- **Walk**: what the main loop computes, stated on the visited blocks:
  - `Plan` gives the patched blocks or the first error;
  - `Apply` gives the buffer after the patches.
- **Driver**:
  - the loop body, `VisitBlock`, and the loop, `PatchBlocks`, as imperative methods over the file array;
  - the whole script after argument parsing, as a method `Run` and as a function `RunSpec`;
  - `Run` is proved equal to `RunSpec`.
- **Properties**: theorems about `RunSpec`:
  - when a run aborts, and with which error;
  - when it has nothing to do;
  - what the written file holds.

Behaviour of the script that its names do not make obvious:

- `readUint32` returns a signed 32-bit value, despite its name. The bit operators it combines the bytes with produce int32 results.
- `readString` trims whitespace at both ends, then removes every NUL.
- An unknown byte-order marker is not rejected by `readHeader`. It fails at the first `readUint32`, which is the first block header the loop reads.
- An unknown pointer-width marker raises no error in the code. The model makes a valid marker a precondition.
- When the catalog lookup misses, the code does not guarantee zero matches. The lookup's -1 is compared with the signed SDNA index field of each block, so a `DATA` block whose index field holds `0xFFFFFFFF` is treated as a target: it is checked, and the run either patches it or aborts. `Properties.CatalogMiss` states this exactly.

## Model

| member | source | states |
|---|---|---|
| Codec.ToInt32 | bl_modconv.js:91-95 | the result is the int32 value the bit operators produce: in [-2^31, 2^31), equal to v modulo 2^32, and v itself when v is already in that range |
| Codec.Signed32 | bl_modconv.js:91-95 | a 32-bit pattern read as two's complement lies in [-2^31, 2^31) and is negative exactly when the top bit is set |
| Codec.Combine | bl_modconv.js:91-95 | the four bytes, least significant first, form an unsigned 32-bit number |
| Codec.ReadUint32 | bl_modconv.js:87-101 | fails, with the endianness error, exactly when the marker is neither 'v' nor 'V'; otherwise the value is a signed 32-bit number |
| Codec.ReadPastEnd | bl_modconv.js:91-95 | an index past the end of the buffer reads as 0: a word that runs past the end reads as if the buffer went on with zero bytes |
| Codec.LittleBytes | bl_modconv.js:106-109 | the four stored bytes, least significant first, spell v modulo 2^32 |
| Codec.EncodeUint32 | bl_modconv.js:103-118 | under 'v' the bytes at o..o+3 spell v mod 2^32 least significant first; under 'V' most significant first, i.e. the same bytes in reverse order |
| Codec.Store | bl_modconv.js:103-118 | the length is unchanged; the bytes at o..o+3 below the view end take the encoded bytes; every other byte is unchanged |
| Codec.WriteUint32 | bl_modconv.js:103-118 | on an unsupported marker it fails and the buffer is unchanged; otherwise the buffer becomes Store of the old buffer at view start + o, bounded by the view end |
| Codec.StoreThroughView | bl_modconv.js:131-151 | a write through a `slice` view lands at the shifted offset of the underlying buffer, and nothing outside the view changes |
| Codec.ReadEncoded | bl_modconv.js:87-118 | four bytes laid out by the encoder read back as ToInt32(v) under either marker |
| Codec.ReadAfterWrite | bl_modconv.js:87-118 | round trip: readUint32 after writeUint32 gives v as a signed 32-bit number, and v itself when 0 <= v < 2^31 |
| Codec.LittleBytesOfCombine | bl_modconv.js:91-109 | the encoder recovers the bytes a read combined |
| Codec.Signed32Bits | bl_modconv.js:91-95 | the signed reading of a bit pattern keeps that pattern as its low 32 bits |
| Codec.EncodeWhatWasRead | bl_modconv.js:87-118 | encoding the value just read gives back exactly the four bytes it was read from |
| Codec.WriteWhatWasRead | bl_modconv.js:87-118 | writing back the value just read leaves the buffer unchanged |
| Codec.Slice | bl_modconv.js:122 | `slice(o, o + len)` has at most len bytes; it is exactly b[o..o+len] when that range lies in the buffer, and shorter when the range runs past the end; what it then holds is stated by Codec.SliceClamped |
| Codec.SliceClamped | bl_modconv.js:122 | a range that runs past the end of the buffer is clamped: `slice(o, o + len)` is the rest of the buffer from min(o, length) |
| Codec.Chars | bl_modconv.js:123 | one character per byte |
| Codec.TrimStart | bl_modconv.js:124 | the result does not start with whitespace and is no longer than the input |
| Codec.TrimStartRemovesSpaces | bl_modconv.js:124 | everything trimmed from the front is whitespace |
| Codec.TrimStartIsSuffix | bl_modconv.js:124 | what trimming the front returns is the rest of the input after the characters it drops |
| Codec.TrimEnd | bl_modconv.js:124 | the result does not end with whitespace and is no longer than the input |
| Codec.TrimEndRemovesSpaces | bl_modconv.js:124 | everything trimmed from the back is whitespace |
| Codec.TrimEndIsPrefix | bl_modconv.js:124 | what trimming the back returns is the input up to the characters it drops |
| Codec.TrimIsInfix | bl_modconv.js:124 | `trim` returns one contiguous run of the input, the one after the leading whitespace, and that run neither starts nor ends with whitespace |
| Codec.FullLengthTrim | bl_modconv.js:124 | a trim that removes nothing returns the input |
| Codec.RemoveNuls | bl_modconv.js:125 | the result is no longer than the input |
| Codec.RemoveNulsRemovesAll | bl_modconv.js:125 | the result holds no NUL |
| Codec.RemoveNulsKeepsNulFree | bl_modconv.js:125 | a string without NUL is returned unchanged |
| Codec.FullLengthRemoveNuls | bl_modconv.js:125 | a NUL removal that removes nothing returns the input |
| Codec.FullLengthRead | bl_modconv.js:120-125 | when readString loses no character, it returns the bytes as characters |
| Codec.CharsInjective | bl_modconv.js:123 | different byte strings give different strings |
| Codec.ReadString | bl_modconv.js:120-125 | the result has at most len characters |
| Codec.ReadStringHasNoNul | bl_modconv.js:120-125 | the result holds no NUL |
| Codec.RemoveNulsAppend | bl_modconv.js:125 | NUL removal distributes over concatenation |
| Codec.RemoveNulsOfNuls | bl_modconv.js:125 | a string of NULs becomes empty |
| Codec.ReadPaddedField | bl_modconv.js:120-125 | a field padded with NULs, with no NUL inside and no whitespace at either end, reads back as its characters |
| Codec.CharsAppend | bl_modconv.js:123 | decoding distributes over concatenation |
| Codec.CharsOfZeros | bl_modconv.js:123 | zero bytes decode to NULs |
| Codec.CharsWithoutZero | bl_modconv.js:123 | bytes without 0 decode to a string without NUL |
| Header.PtrSizeOf | bl_modconv.js:73-78 | the pointer width is 4 or 8; which marker gives which width is proved by Header.ParseEncodedHeader |
| Header.ParseHeader | bl_modconv.js:172-187 | fails with NotBlenderFile exactly when the first seven bytes, read by readString, are not BLENDER; otherwise the endianness is byte 8 and the pointer width comes from byte 7 |
| Header.EncodeHeader | bl_modconv.js:172-187 | a header as Blender writes it is 12 bytes long |
| Header.ParseEncodedHeader | bl_modconv.js:172-187 | round trip: a header written with a pointer width and a marker parses back to exactly that configuration |
| Header.MagicOfHeader | bl_modconv.js:179-181 | a file that starts with the bytes of BLENDER passes the magic check |
| Header.MagicChars | bl_modconv.js:174 | the bytes 42 4c 45 4e 44 45 52 spell BLENDER |
| Header.FileConfig.constructor | bl_modconv.js:82-85 | the defaults are little-endian and 8-byte pointers |
| Header.FileConfig.ReadHeader | bl_modconv.js:172-187 | on a wrong magic it fails and assigns nothing; otherwise the object holds exactly the configuration ParseHeader gives |
| Blocks.ReadFileBlockHeader | bl_modconv.js:154-170 | fails, with the endianness error, exactly for an unsupported marker; otherwise header length is 24, the body starts at offset + 24, and the code has at most 4 characters |
| Blocks.BodyLengthAt | bl_modconv.js:164 | the body length is a signed 32-bit number |
| Blocks.SdnaIndexAt | bl_modconv.js:165 | the SDNA index is a signed 32-bit number |
| Blocks.ChainNext | bl_modconv.js:221-225 | from a block that is not ENDB a well-formed chain goes on at offset + 24 + bodyLength, the body length is not negative and the next header lies in the buffer |
| Blocks.InfoAt | bl_modconv.js:203-205 | what the loop records of a block: its offset; a body length and an SDNA index that are signed 32-bit numbers; never both DATA and ENDB |
| Blocks.BlockSequence | bl_modconv.js:202-226 | the walk starts with the block at the first offset, ends with an ENDB block, and every block before it is not ENDB and has a non-negative body length |
| Blocks.BlockSequenceAt | bl_modconv.js:203-225 | each visited block is what its header says, its header lies in the buffer, and the next block starts at offset + 24 + bodyLength |
| Blocks.CodeIs | bl_modconv.js:163 | a code read by readString equals a four-letter code without NUL or whitespace exactly when the four bytes spell it |
| Blocks.EndbChars | bl_modconv.js:221 | the bytes 45 4e 44 42 spell ENDB |
| Blocks.DataChars | bl_modconv.js:205 | the bytes 44 41 54 41 spell DATA |
| Blocks.HeaderFields | bl_modconv.js:154-170 | the code is ENDB or DATA exactly when the four bytes spell it; body length and SDNA index are the words at +4 and +16; the next offset is offset + 24 + bodyLength |
| Blocks.EncodeBlockHeader | bl_modconv.js:154-170 | an encoded block header is 24 bytes long |
| Blocks.EncodedHeaderParts | bl_modconv.js:154-170 | an encoded block header holds the code at +0, the body length at +4, the SDNA index at +16 and the count at +20 |
| Blocks.ReadEncodedBlockHeader | bl_modconv.js:154-170 | round trip: a header encoded from a NUL-padded code, a body length, an SDNA index and a count reads back with that code and with the integers as signed 32-bit numbers, length 24 and body offset offset + 24 |
| Blocks.HeaderIsLocal | bl_modconv.js:154-170 | readFileBlockHeader depends only on the 24 bytes at the offset |
| Blocks.WordIsLocal | bl_modconv.js:87-101 | readUint32 depends only on the four bytes at the offset |
| Blocks.ChainOfAgreeingSuffix | bl_modconv.js:202-226 | whether the chain from an offset is well formed depends only on the bytes from that offset on |
| Catalog.FindIndex | bl_modconv.js:60 | `findIndex`: the lowest index holding x, or -1 exactly when x is absent |
| Catalog.FirstIndexUnique | bl_modconv.js:60-63 | there is only one first match |
| Catalog.StructTypes | bl_modconv.js:63 | the idxType of every struct, in order; never -1 |
| Catalog.LookupSdnaIndex | bl_modconv.js:55-67 | -1 when `name` is not a type; otherwise -1 exactly when no struct has the index of the first type named `name` as its idxType, and the first such struct when one does |
| Patcher.EnumOffset | bl_modconv.js:129-130 | for either pointer width the four bytes of the enum, which follows the `next` and `prev` pointers, end before the name field at body offset 32 |
| Patcher.BlockView | bl_modconv.js:208 | the block view starts at the block and ends at offset + 24 + bodyLength, clamped to the buffer |
| Patcher.SliceFrom | bl_modconv.js:131 | `view.slice(from)` ends where the view ends and starts `from` bytes in, clamped to the view |
| Patcher.Bytes | bl_modconv.js:131 | a view shows as many bytes as lie between its bounds |
| Patcher.BytesIsSlice | bl_modconv.js:131 | a view shows the slice of the buffer between its bounds |
| Patcher.ViewByte | bl_modconv.js:131 | index i of a view is index start + i of the buffer it shares |
| Patcher.BodyView | bl_modconv.js:131 | the body view starts right after the 24-byte header and ends no later than the block |
| Patcher.CheckBody | bl_modconv.js:132-149 | passes exactly when the marker is supported, the name field reads as the modifier name and the enum reads as the old value; fails with the endianness error, then the name error, then the enum error, in the script's order, carrying the actual values |
| Patcher.WriteEnum | bl_modconv.js:151 | the length is unchanged, no byte outside the enum field changes, and nothing past the block changes |
| Patcher.WriteEnumReadsBack | bl_modconv.js:151 | when the body holds the whole field, the enum field in the file reads back the new value as a signed 32-bit number |
| Patcher.WriteEnumElsewhere | bl_modconv.js:151 | a word that ends before the body reads as before the patch |
| Patcher.WriteEnumEffect | bl_modconv.js:127-152 | after the patch, the body's enum reads back the new value and the name field reads as before |
| Patcher.NameUntouched | bl_modconv.js:129-132 | a four-byte write that ends by body offset 32 leaves the name field as it was |
| Patcher.PatchFileBlock | bl_modconv.js:127-152 | the outcome is the checks on the body view in the script's order; on failure the file is unchanged; on success only the enum, stored through the body view, changes |
| Patcher.CheckModifier | bl_modconv.js:127-149 | the reads and checks through the body view give exactly CheckBody of the body's bytes; a pass implies a supported marker |
| Patcher.WriteModifierType | bl_modconv.js:151 | the new enum is stored through the body view at twice the pointer width, clipped to the view; nothing else in the file changes |
| Walk.CheckAt | bl_modconv.js:131-149 | on an unsupported marker the check of a block fails with the endianness error |
| Walk.CheckReadsFile | bl_modconv.js:129-133 | the enum the check reads through the body view is the word of the file at block offset + 24 + 2 * ptrSize |
| Walk.Plan | bl_modconv.js:202-226 | when the loop completes, it has patched at most as many blocks as it visited, and each patched block is a visited target |
| Walk.Targets | bl_modconv.js:205 | the target blocks: every one of them is a visited DATA block with the SDNA index, and every such block is among them |
| Walk.NoTargets | bl_modconv.js:205 | no block is a target exactly when no visited DATA block carries the SDNA index |
| Walk.PlanSucceeds | bl_modconv.js:202-226 | the loop succeeds exactly when every target block passes its check, and it then patches precisely the target blocks, in order |
| Walk.PlanFails | bl_modconv.js:202-226 | when the loop aborts, its error is that of the first target block whose check fails, and all earlier targets pass |
| Walk.PlanAppend | bl_modconv.js:202-226 | the loop over two stretches of blocks is the loop over the first, then, if that did not abort, the loop over the second |
| Walk.Apply | bl_modconv.js:202-226 | patching keeps the buffer length |
| Walk.End | bl_modconv.js:225 | a block with a non-negative body length ends at least 24 bytes after it starts |
| Walk.ApplyOutside | bl_modconv.js:202-226 | no byte outside the enum fields of the patched blocks changes |
| Walk.ApplyLast | bl_modconv.js:202-226 | the patches are applied in file order, the last one after the others |
| Walk.DisjointPrefix | bl_modconv.js:202-226 | blocks that do not overlap still do not overlap when the list is cut short |
| Walk.ApplyKeepsEarlier | bl_modconv.js:202-226 | a later patch does not change a word that lies before its block |
| Walk.ApplyReadsBack | bl_modconv.js:202-226 | after patching blocks that do not overlap, each patched enum field that lies inside its body reads back the new value |
| Walk.EarlierSiteKept | bl_modconv.js:202-226 | the patch of the last block leaves the enum field of an earlier block reading as it did |
| Walk.PlanSnoc | bl_modconv.js:203-219 | one more block: a non-target leaves the result unchanged, a target whose check fails aborts with its error, and a target that passes is appended |
| Walk.PlanNext | bl_modconv.js:203-219 | the loop over k + 1 blocks, when the k-th passes or is no target |
| Walk.PlanStop | bl_modconv.js:203-219 | a failing target reached without an earlier failure is the error of the whole loop |
| Driver.IndexOf | bl_modconv.js:231 | the first occurrence of the pattern at or after i, or -1 exactly when there is none |
| Driver.ConvertedName | bl_modconv.js:231 | a name without ".blend" is kept; otherwise the first ".blend" is replaced by "_converted.blend" and the rest is kept |
| Driver.PlannedAreBlocks | bl_modconv.js:202-226 | every block the loop patches has a body view |
| Driver.TargetIsBlock | bl_modconv.js:205-221 | a target block is not the ENDB block, so its body length is not negative |
| Driver.RunSpec | bl_modconv.js:189-238 | a wrong magic aborts with NotBlenderFile and an unsupported marker with the endianness error; a written file has the input's length and the converted name |
| Driver.ApplyFrame | bl_modconv.js:202-226 | patches of blocks that end before a bound leave the buffer from that bound on as it was |
| Driver.HeaderStep | bl_modconv.js:203 | the loop reads each header from the patched buffer as the original holds it |
| Driver.HeaderInfo | bl_modconv.js:154-170 | readFileBlockHeader gives the fields the walk records for a block |
| Driver.EndBeforeSnoc | bl_modconv.js:218-225 | the patched blocks grow by one that ends at the next offset |
| Driver.BodyUnpatched | bl_modconv.js:208-216 | a body after every patched block reads as in the original |
| Driver.ApplySnoc | bl_modconv.js:208-218 | one more patched block is one more store at its enum field |
| Driver.BlockOfWalk | bl_modconv.js:202-226 | the k-th block's header lies in the buffer; it is ENDB exactly when it is the last; otherwise it has a body |
| Driver.NextBlock | bl_modconv.js:225 | the block after a non-ENDB block starts where its body ends |
| Driver.EndBeforeNext | bl_modconv.js:218-225 | after the k-th block every patched block ends before the next offset |
| Driver.BlockBody | bl_modconv.js:131-208 | the block view sliced past the header is the body view |
| Driver.VisitBlock | bl_modconv.js:203-225 | one pass of the loop body: it fails exactly when the block is a target and its check fails, with that error; otherwise it reports whether it patched (exactly for targets), whether the block was ENDB and the next offset, and the file is patched exactly for a target, by WriteEnum, at block offset + 24 + 2 * ptrSize |
| Driver.BeforeVisit | bl_modconv.js:203-216 | on the buffer patched so far, the k-th header reads as in the original and its check sees the original body |
| Driver.AfterVisit | bl_modconv.js:203-225 | after the loop body the buffer is the original with the blocks of Plan over the first k + 1 blocks patched; the loop ends exactly at ENDB |
| Driver.PatchBlocks | bl_modconv.js:189-226 | the loop fails exactly when Plan fails, with its error; otherwise it counts the patched blocks and the file is the original patched at exactly the planned blocks |
| Driver.Run | bl_modconv.js:189-238 | the run in place gives exactly RunSpec, and a written result is the final buffer |
| Properties.WalkInOrder | bl_modconv.js:202-226 | each block visited before ENDB ends no later than any later block starts |
| Properties.BodyInFile | bl_modconv.js:208-225 | a visited block other than ENDB lies, with its body, inside the file |
| Properties.InOrderCons | bl_modconv.js:202-226 | a list of blocks is in order exactly when its first block ends before all others start and the rest is in order |
| Properties.TargetsKeepOrder | bl_modconv.js:205 | picking the target blocks keeps file order |
| Properties.WalkIsInOrder | bl_modconv.js:202-226 | the walk visits blocks in file order, without overlap |
| Properties.DataInFile | bl_modconv.js:205-208 | a visited DATA block lies, with its body, inside the file |
| Properties.TargetsInFile | bl_modconv.js:205-208 | every target block lies, with its body, inside the file |
| Properties.TargetsDisjoint | bl_modconv.js:202-226 | the patched blocks do not overlap and lie inside the file |
| Properties.RunIsPlan | bl_modconv.js:189-238 | a run ends as the loop's plan does: its error, nothing to do when it patches nothing, a write otherwise |
| Properties.RunAborts | bl_modconv.js:189-238 | a run aborts exactly when some target block fails its check, and then with the error of the first such block in file order |
| Properties.RunFinishes | bl_modconv.js:228-238 | nothing to do exactly when there is no target block; a file is written exactly when there are targets and all pass |
| Properties.WrittenIsPatched | bl_modconv.js:189-238 | a written file is the input with the target blocks patched, under the converted name, and every target passed its check |
| Properties.WrittenMatched | bl_modconv.js:132-149 | every patched block held the expected modifier name and old enum value |
| Properties.WrittenEnum | bl_modconv.js:151 | in the written file the enum field of every patched block whose body holds it reads the new value |
| Properties.WrittenElsewhere | bl_modconv.js:228-238 | the written file has the input's length, and every byte outside the patched enum fields is as in the input |
| Properties.CatalogMiss | bl_modconv.js:55-67 | after a lookup miss, a run has nothing to do exactly when no visited DATA block's SDNA index reads as -1 |

## Left out

- Argument parsing (`argparse`, bl_modconv.js:15-48): it is text handling only. `Args` holds the four values it produces.
- `fs.readFileSync` and `fs.writeFileSync`: the model takes the bytes as an array and returns the written name and content in `RunResult`.
- All `console.log` output: it is logging only.
- The parse of the `DNA1` block by the Kaitai `BlenderBlend` library: it is a foreign library whose source is not part of this model. The type names and the struct `idxType`s are a `Catalog` parameter.
- `process.exit` and the message text of `die`: an abort is an `Error` value. The value carries the SDNA index and the expected and actual values the message names.
- UTF-8 decoding in `readString`: bytes map one to one to characters, and whitespace is ASCII whitespace.
- A missing `ENDB`, a header past the end of the file, or a negative body length before `ENDB`. With a missing `ENDB` or a header past the end, the script reads past the end or loops forever. A body length between -23 and -1 is different: the script moves forward by less than 24 bytes and carries on, and a matching `DATA` block there gets an empty body view (bl_modconv.js:131, 208, 225). Excluding negative body lengths is a modelling choice: `Chain` makes a well-formed chain a precondition.
- A file of 7 or 8 bytes that starts with the magic: `fileContent[8]` is undefined, so the endianness becomes undefined and the first `readUint32` the script reaches dies with the endianness error. The model requires both marker bytes of a file with the magic to exist (`HeaderMarkersPresent`).
- An unknown pointer-width marker: the script leaves `ptrSize` undefined. The model requires a valid marker.
- The `count` field of the block header: the script reads it and never uses it.
- The block header layout is the 24-byte one for both pointer widths, as in the script. Files with 4-byte pointers, whose block headers are 20 bytes long, are read with that same layout.
- A name without ".blend": `replace` leaves the name unchanged, so the output would overwrite the input. `ConvertedName` states this, and the file write itself is not modelled.
