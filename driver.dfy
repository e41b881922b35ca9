/** The script's top level: read the header, look up the SDNA index of the
    modifier struct, walk the blocks patching every matching DATA block, and
    hand the buffer back for writing under the converted name. */
module Driver {
  import opened Base
  import opened Codec
  import opened Header
  import opened Blocks
  import opened Catalog
  import opened Patcher
  import opened Walk

  /** The four positional command-line arguments after the file name. */
  datatype Args = Args(modifierName: string, modifierDataTypeName: string, oldEnumType: int, newEnumType: int)

  /** How a run ends: `die` with an error, the "Nothing to do." message,
      or the patched buffer written to a file of the given name. */
  datatype RunResult = Aborted(error: Error) | NothingToDo | Written(fileName: string, content: seq<byte>)

  /** What the script needs of its input to terminate without reading an
      undefined pointer width: known markers, and, for a supported byte
      order, a chain of in-bounds headers ending in ENDB. */
  predicate WellFormed(file: seq<byte>) {
    HeaderMarkersPresent(file) &&
    (MagicOk(file) && Supported(file[8]) ==> Chain(file[8], file, FILEBLOCKS_OFFSET))
  }

  /** pat occurs in s at position j. */
  predicate OccursAt(s: string, pat: string, j: int) {
    0 <= j && j + |pat| <= |s| && s[j..j + |pat|] == pat
  }

  /** First position at or after i where pat occurs in s, or -1. */
  function IndexOf(s: string, pat: string, i: nat): (r: int)
    requires i <= |s|
    ensures r == -1 || (i <= r && OccursAt(s, pat, r))
    ensures r == -1 ==> forall j :: i <= j ==> !OccursAt(s, pat, j)
    ensures r != -1 ==> forall j :: i <= j < r ==> !OccursAt(s, pat, j)
    decreases |s| - i
  {
    if |s| < i + |pat| then -1
    else if OccursAt(s, pat, i) then i
    else IndexOf(s, pat, i + 1)
  }

  const EXTENSION: string := ".blend"
  const CONVERTED_EXTENSION: string := "_converted.blend"

  /** `fileName.replace(/\.blend/, "_converted.blend")`: only the first
      occurrence is replaced, and a name without one is returned as is. */
  function ConvertedName(fileName: string): (r: string)
    ensures IndexOf(fileName, EXTENSION, 0) == -1 ==> r == fileName
    ensures IndexOf(fileName, EXTENSION, 0) != -1 ==> |r| == |fileName| + 10 && r != fileName
    ensures var k := IndexOf(fileName, EXTENSION, 0);
            k != -1 ==> r[..k] == fileName[..k] && r[k..k + 16] == CONVERTED_EXTENSION &&
                        r[k + 16..] == fileName[k + 6..]
  {
    var k := IndexOf(fileName, EXTENSION, 0);
    if k == -1 then fileName
    else fileName[..k] + CONVERTED_EXTENSION + fileName[k + |EXTENSION|..]
  }

  /** The blocks the loop patches, given that it does not abort, are all
      blocks whose bodies exist. */
  lemma {:induction false} PlannedAreBlocks(endian: byte, b: seq<byte>, target: int, check: BlockInfo -> Outcome<Error>)
    requires Supported(endian) && Chain(endian, b, FILEBLOCKS_OFFSET)
    requires Plan(BlockSequence(endian, b, FILEBLOCKS_OFFSET), target, check).Success?
    ensures forall s :: s in Plan(BlockSequence(endian, b, FILEBLOCKS_OFFSET), target, check).value ==> IsBlock(b, s)
  {
    var bs := BlockSequence(endian, b, FILEBLOCKS_OFFSET);
    PlanSucceeds(bs, target, check);
    forall s | s in Targets(bs, target)
      ensures IsBlock(b, s)
    {
      TargetIsBlock(endian, b, FILEBLOCKS_OFFSET, target, s);
    }
  }

  /** A target block of the walk is a block: it is not the closing ENDB, so
      its body length is not negative. */
  lemma TargetIsBlock(endian: byte, b: seq<byte>, off: nat, target: int, s: BlockInfo)
    requires Supported(endian) && Chain(endian, b, off)
    requires s in BlockSequence(endian, b, off) && IsTarget(s, target)
    ensures IsBlock(b, s)
  {
    var bs := BlockSequence(endian, b, off);
    var i :| 0 <= i < |bs| && bs[i] == s;
    BlockSequenceAt(endian, b, off, i);
    assert !s.isEndb by {
      assert s == InfoAt(endian, b, s.offset);
      assert !(b[s.offset] == ENDB_BYTES[0] && b[s.offset] == DATA_BYTES[0]);
    }
  }

  /** The whole run on a buffer, as a value. */
  function RunSpec(file: seq<byte>, fileName: string, catalog: Catalog, args: Args): (r: RunResult)
    requires WellFormed(file)
    ensures !MagicOk(file) ==> r == Aborted(NotBlenderFile)
    ensures MagicOk(file) && !Supported(file[8]) ==> r == Aborted(UnsupportedEndianness(file[8]))
    ensures r.Written? ==> |r.content| == |file| && r.fileName == ConvertedName(fileName)
  {
    match ParseHeader(file)
    case Failure(e) => Aborted(e)
    case Success(cfg) =>
      if !Supported(cfg.endian) then Aborted(UnsupportedEndianness(cfg.endian))
      else
        var spec := PatchSpec(args.modifierName, args.oldEnumType, args.newEnumType);
        var target := LookupSdnaIndex(catalog, args.modifierDataTypeName);
        var check := Checker(cfg, file, spec);
        var blocks := BlockSequence(cfg.endian, file, FILEBLOCKS_OFFSET);
        match Plan(blocks, target, check)
        case Failure(e) => Aborted(e)
        case Success(sites) =>
          if |sites| == 0 then NothingToDo
          else
            PlannedAreBlocks(cfg.endian, file, target, check);
            Written(ConvertedName(fileName), Apply(cfg, file, sites, args.newEnumType))
  }

  /** Every patched block ends at or before `bound`. */
  ghost predicate EndBefore(orig: seq<byte>, done: seq<BlockInfo>, bound: nat) {
    forall s :: s in done ==> IsBlock(orig, s) && s.offset + BLOCK_HEADER_LENGTH + s.bodyLength <= bound
  }

  /** Patches of blocks that end before `bound` leave the buffer from
      `bound` on as it was. */
  lemma {:induction false} ApplyFrame(cfg: Config, b: seq<byte>, sites: seq<BlockInfo>, newEnumType: int, bound: nat)
    requires Supported(cfg.endian)
    requires EndBefore(b, sites, bound)
    ensures forall i :: bound <= i < |b| ==> Apply(cfg, b, sites, newEnumType)[i] == b[i]
  {
    if sites != [] {
      assert sites[|sites| - 1] in sites;
      assert forall x :: x in sites[..|sites| - 1] ==> x in sites;
      ApplyFrame(cfg, b, sites[..|sites| - 1], newEnumType, bound);
    }
  }

  /** readFileBlockHeader on the current buffer sees what the original
      buffer holds at `offset`, since every patch so far ends before it. */
  lemma HeaderStep(cfg: Config, orig: seq<byte>, done: seq<BlockInfo>, newEnumType: int, offset: nat)
    requires Supported(cfg.endian) && offset + BLOCK_HEADER_LENGTH <= |orig| && EndBefore(orig, done, offset)
    ensures ReadFileBlockHeader(cfg.endian, Apply(cfg, orig, done, newEnumType), offset) ==
            ReadFileBlockHeader(cfg.endian, orig, offset)
  {
    var cur := Apply(cfg, orig, done, newEnumType);
    ApplyFrame(cfg, orig, done, newEnumType, offset);
    assert cur[offset..offset + BLOCK_HEADER_LENGTH] == orig[offset..offset + BLOCK_HEADER_LENGTH];
    HeaderIsLocal(cfg.endian, orig, cur, offset);
  }

  /** readFileBlockHeader reads the fields the walk records for a block. */
  lemma HeaderInfo(endian: byte, b: seq<byte>, offset: nat)
    requires Supported(endian)
    ensures var r := ReadFileBlockHeader(endian, b, offset);
            var info := InfoAt(endian, b, offset);
            r.Success? && (r.value.code == "DATA" <==> info.isData) && (r.value.code == "ENDB" <==> info.isEndb) &&
            r.value.sdnaIndex == info.sdnaIndex && r.value.bodyLength == info.bodyLength &&
            r.value.length == BLOCK_HEADER_LENGTH && r.value.absoluteBodyOffset == offset + BLOCK_HEADER_LENGTH
  {
    HeaderFields(endian, b, offset);
  }

  /** The patched sites grow by one block that ends at the next offset. */
  lemma EndBeforeSnoc(orig: seq<byte>, done: seq<BlockInfo>, info: BlockInfo, offset: nat, next: nat)
    requires EndBefore(orig, done, offset) && offset <= next
    requires IsBlock(orig, info) && info.offset + BLOCK_HEADER_LENGTH + info.bodyLength <= next
    ensures EndBefore(orig, done + [info], next)
  {
    assert forall s :: s in done + [info] ==> s in done || s == info;
  }

  /** The body of a block that starts at or after every patched block
      reads as in the original buffer. */
  lemma BodyUnpatched(cfg: Config, orig: seq<byte>, done: seq<BlockInfo>, info: BlockInfo, newEnumType: int, cur: seq<byte>)
    requires Supported(cfg.endian) && EndBefore(orig, done, info.offset) && IsBlock(orig, info)
    requires cur == Apply(cfg, orig, done, newEnumType)
    ensures |cur| == |orig| && BodyView(cur, info.offset, info.bodyLength) == BodyView(orig, info.offset, info.bodyLength)
    ensures Bytes(cur, BodyView(cur, info.offset, info.bodyLength)) == Bytes(orig, BodyView(orig, info.offset, info.bodyLength))
  {
    ApplyFrame(cfg, orig, done, newEnumType, info.offset);
    var v := BodyView(orig, info.offset, info.bodyLength);
    BytesIsSlice(cur, v);
    BytesIsSlice(orig, v);
    assert Bytes(cur, v) == Bytes(orig, v);
  }

  /** Apply over one more site stores the new enum at that block's enum
      field, bounded by its body view in the original buffer. */
  lemma ApplySnoc(cfg: Config, orig: seq<byte>, done: seq<BlockInfo>, info: BlockInfo, newEnumType: int)
    requires Supported(cfg.endian) && EndBefore(orig, done, info.offset) && IsBlock(orig, info)
    ensures EndBefore(orig, done + [info], info.offset + BLOCK_HEADER_LENGTH + info.bodyLength)
    ensures Apply(cfg, orig, done + [info], newEnumType) ==
            WriteEnum(cfg, Apply(cfg, orig, done, newEnumType), info.offset, info.bodyLength, newEnumType)
  {
    var sites := done + [info];
    EndBeforeSnoc(orig, done, info, info.offset, info.offset + BLOCK_HEADER_LENGTH + info.bodyLength);
    assert sites[..|sites| - 1] == done;
    assert sites[|sites| - 1] == info;
  }

  /** What the loop needs to know about the k-th block of the walk: its
      header lies in the buffer; it is ENDB exactly when it is the last
      one; otherwise it is a block. */
  lemma BlockOfWalk(endian: byte, orig: seq<byte>, blocks: seq<BlockInfo>, k: nat)
    requires Supported(endian) && Chain(endian, orig, FILEBLOCKS_OFFSET)
    requires blocks == BlockSequence(endian, orig, FILEBLOCKS_OFFSET) && k < |blocks|
    ensures blocks[k].offset + BLOCK_HEADER_LENGTH <= |orig| && !(blocks[k].isData && blocks[k].isEndb)
    ensures blocks[k].isEndb <==> k == |blocks| - 1
    ensures !blocks[k].isEndb ==> IsBlock(orig, blocks[k])
  {
    BlockSequenceAt(endian, orig, FILEBLOCKS_OFFSET, k);
  }

  /** The block after the k-th, which is not ENDB, starts right after its
      body. */
  lemma NextBlock(endian: byte, orig: seq<byte>, blocks: seq<BlockInfo>, k: nat, k': nat, offset': nat)
    requires Supported(endian) && Chain(endian, orig, FILEBLOCKS_OFFSET)
    requires blocks == BlockSequence(endian, orig, FILEBLOCKS_OFFSET) && k < |blocks| && !blocks[k].isEndb
    requires k' == k + 1 && offset' == blocks[k].offset + BLOCK_HEADER_LENGTH + blocks[k].bodyLength
    ensures k' < |blocks| && blocks[k'].offset == offset'
  {
    BlockSequenceAt(endian, orig, FILEBLOCKS_OFFSET, k);
  }

  /** After the k-th block every patched block, this one included when it
      is a target, ends before the next offset. */
  lemma EndBeforeNext(orig: seq<byte>, done: seq<BlockInfo>, info: BlockInfo, patched: bool, done': seq<BlockInfo>, next: nat)
    requires EndBefore(orig, done, info.offset) && IsBlock(orig, info)
    requires next == info.offset + BLOCK_HEADER_LENGTH + info.bodyLength
    requires done' == if patched then done + [info] else done
    ensures EndBefore(orig, done', next)
  {
    EndBeforeSnoc(orig, done, info, info.offset, next);
  }

  /** What one pass of the loop body reports: whether it patched the block,
      whether the block was ENDB, and where the next header starts. */
  datatype Step = Step(patched: bool, endOfFile: bool, next: int)

  /** The view patchFileBlock receives for a block whose header lies in the
      buffer, sliced past the header, is the body view of that block. */
  lemma BlockBody(b: seq<byte>, off: nat, bodyLength: int, headerLength: nat, fileBlock: View)
    requires off + BLOCK_HEADER_LENGTH <= |b| && bodyLength >= 0 && headerLength == BLOCK_HEADER_LENGTH
    requires fileBlock == View(off, Min(off + headerLength + bodyLength, |b|))
    ensures fileBlock.start <= fileBlock.end <= |b|
    ensures SliceFrom(fileBlock, headerLength) == BodyView(b, off, bodyLength)
  {
  }

  /** One pass of the main loop's body at `offset`: read the header and,
      for a DATA block of the modifier struct, check it and patch it in
      place. A failed check is the error of the whole run. */
  method VisitBlock(fileConfig: FileConfig, file: array<byte>, offset: nat, sdnaIndex: int, spec: PatchSpec,
                    ghost cfg: Config)
    returns (r: Result<Step, Error>)
    requires cfg == Config(fileConfig.endian, fileConfig.ptrSize)
    requires Supported(cfg.endian) ==>
               offset + BLOCK_HEADER_LENGTH <= file.Length &&
               (InfoAt(cfg.endian, file[..], offset).isData ==> InfoAt(cfg.endian, file[..], offset).bodyLength >= 0)
    modifies file
    ensures !Supported(cfg.endian) ==> r == Failure(UnsupportedEndianness(cfg.endian))
    ensures Supported(cfg.endian) ==>
              var info := InfoAt(cfg.endian, old(file[..]), offset);
              (r.Failure? <==> IsTarget(info, sdnaIndex) && CheckAt(cfg, old(file[..]), info, spec).Fail?) &&
              (r.Failure? ==> r.error == CheckAt(cfg, old(file[..]), info, spec).error) &&
              (r.Success? ==> r.value.patched == IsTarget(info, sdnaIndex) && r.value.endOfFile == info.isEndb &&
                              r.value.next == offset + BLOCK_HEADER_LENGTH + info.bodyLength &&
                              file[..] == if IsTarget(info, sdnaIndex)
                                          then WriteEnum(cfg, old(file[..]), offset, info.bodyLength, spec.newEnumType)
                                          else old(file[..]))
  {
    var header := ReadFileBlockHeader(fileConfig.endian, file[..], offset);
    if header.Failure? {
      return Failure(header.error);
    }
    HeaderInfo(cfg.endian, file[..], offset);
    var h := header.value;
    var patched := false;
    if h.code == "DATA" && h.sdnaIndex == sdnaIndex {
      var fileBlock := View(offset, Min(offset + h.length + h.bodyLength, file.Length));
      BlockBody(file[..], offset, h.bodyLength, h.length, fileBlock);
      var outcome := PatchFileBlock(fileConfig, file, fileBlock, h, spec, cfg);
      if outcome.Fail? {
        return Failure(outcome.error);
      }
      patched := true;
    }
    r := Success(Step(patched, h.code == "ENDB", h.absoluteBodyOffset + h.bodyLength));
  }

  /** The k-th block of the walk, read from the buffer patched so far: its
      header reads as in the original, and so does its body, since every
      patch so far ends before it. */
  lemma BeforeVisit(cfg: Config, orig: seq<byte>, blocks: seq<BlockInfo>, k: nat, done: seq<BlockInfo>, spec: PatchSpec,
                    cur: seq<byte>, offset: nat)
    requires Supported(cfg.endian) && Chain(cfg.endian, orig, FILEBLOCKS_OFFSET)
    requires blocks == BlockSequence(cfg.endian, orig, FILEBLOCKS_OFFSET) && k < |blocks| && blocks[k].offset == offset
    requires EndBefore(orig, done, offset) && cur == Apply(cfg, orig, done, spec.newEnumType)
    ensures offset + BLOCK_HEADER_LENGTH <= |cur| && InfoAt(cfg.endian, cur, offset) == blocks[k]
    ensures InfoAt(cfg.endian, cur, offset).isData ==> InfoAt(cfg.endian, cur, offset).bodyLength >= 0
    ensures blocks[k].isData ==> !blocks[k].isEndb
    ensures !blocks[k].isEndb ==>
              IsBlock(orig, blocks[k]) && IsBlock(cur, blocks[k]) &&
              CheckAt(cfg, cur, blocks[k], spec) == Checker(cfg, orig, spec)(blocks[k])
  {
    BlockOfWalk(cfg.endian, orig, blocks, k);
    BlockSequenceAt(cfg.endian, orig, FILEBLOCKS_OFFSET, k);
    HeaderStep(cfg, orig, done, spec.newEnumType, offset);
    HeaderInfo(cfg.endian, orig, offset);
    HeaderInfo(cfg.endian, cur, offset);
    if !blocks[k].isEndb {
      BodyUnpatched(cfg, orig, done, blocks[k], spec.newEnumType, cur);
    }
  }

  /** After the loop body on the k-th block, the buffer is the original with
      one more block patched when the k-th was a target, and the loop has
      done what Plan does on the first k + 1 blocks. */
  lemma AfterVisit(cfg: Config, orig: seq<byte>, blocks: seq<BlockInfo>, k: nat, done: seq<BlockInfo>, sdnaIndex: int,
                   spec: PatchSpec, cur: seq<byte>, cur': seq<byte>, k': nat, done': seq<BlockInfo>)
    requires Supported(cfg.endian) && Chain(cfg.endian, orig, FILEBLOCKS_OFFSET)
    requires blocks == BlockSequence(cfg.endian, orig, FILEBLOCKS_OFFSET) && k < |blocks|
    requires Plan(blocks[..k], sdnaIndex, Checker(cfg, orig, spec)) == Success(done)
    requires EndBefore(orig, done, blocks[k].offset) && cur == Apply(cfg, orig, done, spec.newEnumType)
    requires IsTarget(blocks[k], sdnaIndex) ==> IsBlock(cur, blocks[k]) && Checker(cfg, orig, spec)(blocks[k]).Pass?
    requires cur' == if IsTarget(blocks[k], sdnaIndex)
                     then WriteEnum(cfg, cur, blocks[k].offset, blocks[k].bodyLength, spec.newEnumType)
                     else cur
    requires k' == k + 1 && done' == if IsTarget(blocks[k], sdnaIndex) then done + [blocks[k]] else done
    ensures Plan(blocks[..k'], sdnaIndex, Checker(cfg, orig, spec)) == Success(done')
    ensures cur' == Apply(cfg, orig, done', spec.newEnumType)
    ensures blocks[k].isEndb <==> k' == |blocks|
    ensures blocks[k].isEndb ==> blocks[..k'] == blocks && EndBefore(orig, done', |orig|)
    ensures !blocks[k].isEndb ==> EndBefore(orig, done', blocks[k].offset + BLOCK_HEADER_LENGTH + blocks[k].bodyLength)
  {
    BlockOfWalk(cfg.endian, orig, blocks, k);
    PlanNext(blocks, k, done, sdnaIndex, Checker(cfg, orig, spec), k', done');
    if blocks[k].isEndb {
      assert blocks[..k'] == blocks;
    }
    if IsTarget(blocks[k], sdnaIndex) {
      ApplySnoc(cfg, orig, done, blocks[k], spec.newEnumType);
    }
    if !blocks[k].isEndb {
      EndBeforeNext(orig, done, blocks[k], IsTarget(blocks[k], sdnaIndex), done',
                    blocks[k].offset + BLOCK_HEADER_LENGTH + blocks[k].bodyLength);
    }
  }

  /** The main loop: from the first block up to ENDB, every DATA block of
      the modifier struct is checked and patched in place. The result is
      the number of patched blocks, or the error of the first block whose
      check fails (or of the first header read, for an unsupported byte
      order). */
  method PatchBlocks(fileConfig: FileConfig, file: array<byte>, sdnaIndex: int, spec: PatchSpec)
    returns (r: Result<nat, Error>)
    requires Supported(fileConfig.endian) ==> Chain(fileConfig.endian, file[..], FILEBLOCKS_OFFSET)
    modifies file
    ensures !Supported(fileConfig.endian) ==> r == Failure(UnsupportedEndianness(fileConfig.endian))
    ensures Supported(fileConfig.endian) ==>
              var cfg := Config(fileConfig.endian, fileConfig.ptrSize);
              var p := Plan(BlockSequence(cfg.endian, old(file[..]), FILEBLOCKS_OFFSET), sdnaIndex,
                            Checker(cfg, old(file[..]), spec));
              (r.Failure? <==> p.Failure?) && (r.Failure? ==> r.error == p.error) &&
              (r.Success? ==> r.value == |p.value| && EndBefore(old(file[..]), p.value, |old(file[..])|) &&
                              file[..] == Apply(cfg, old(file[..]), p.value, spec.newEnumType))
  {
    ghost var orig := file[..];
    ghost var cfg := Config(fileConfig.endian, fileConfig.ptrSize);
    ghost var check := Checker(cfg, orig, spec);
    ghost var blocks := if Supported(cfg.endian) then BlockSequence(cfg.endian, orig, FILEBLOCKS_OFFSET) else [];
    ghost var k: nat := 0;
    ghost var done: seq<BlockInfo> := [];
    var offset: nat := FILEBLOCKS_OFFSET;
    var numBlocksPatched := 0;
    while true
      invariant file.Length == |orig|
      invariant Supported(cfg.endian) ==>
                  k < |blocks| && blocks[k].offset == offset && Plan(blocks[..k], sdnaIndex, check) == Success(done) &&
                  EndBefore(orig, done, offset) && file[..] == Apply(cfg, orig, done, spec.newEnumType)
      invariant numBlocksPatched == |done|
      decreases |blocks| - k
    {
      ghost var cur := file[..];
      if Supported(cfg.endian) {
        BeforeVisit(cfg, orig, blocks, k, done, spec, cur, offset);
      }
      var step := VisitBlock(fileConfig, file, offset, sdnaIndex, spec, cfg);
      if step.Failure? {
        if Supported(cfg.endian) {
          PlanStop(blocks, k, done, sdnaIndex, check);
        }
        return Failure(step.error);
      }
      if step.value.patched {
        numBlocksPatched := numBlocksPatched + 1;
      }
      ghost var k0, done0 := k, done;
      k := k + 1;
      done := if step.value.patched then done + [blocks[k0]] else done;
      AfterVisit(cfg, orig, blocks, k0, done0, sdnaIndex, spec, cur, file[..], k, done);
      if step.value.endOfFile {
        break;
      }
      offset := step.value.next;
      NextBlock(cfg.endian, orig, blocks, k0, k, offset);
    }
    r := Success(numBlocksPatched);
  }

  /** The script after argument parsing, on the file's bytes in `file`:
      the buffer is patched in place and the result says what is written. */
  method Run(file: array<byte>, fileName: string, catalog: Catalog, args: Args) returns (r: RunResult)
    requires WellFormed(file[..])
    modifies file
    ensures r == RunSpec(old(file[..]), fileName, catalog, args)
    ensures r.Written? ==> file[..] == r.content
  {
    var fileConfig := new FileConfig();
    var status := fileConfig.ReadHeader(file[..]);
    if status.Fail? {
      return Aborted(status.error);
    }
    var sdnaIndex := LookupSdnaIndex(catalog, args.modifierDataTypeName);
    var spec := PatchSpec(args.modifierName, args.oldEnumType, args.newEnumType);
    var patched := PatchBlocks(fileConfig, file, sdnaIndex, spec);
    if patched.Failure? {
      return Aborted(patched.error);
    }
    var numBlocksPatched := patched.value;
    if numBlocksPatched > 0 {
      var targetFileName := ConvertedName(fileName);
      r := Written(targetFileName, file[..]);
    } else {
      r := NothingToDo;
    }
  }
}
