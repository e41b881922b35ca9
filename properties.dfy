/** What a whole run of the script does to a well-formed file with a
    supported byte order: which blocks it patches, when it aborts, and what
    the written file holds. */
module Properties {
  import opened Base
  import opened Codec
  import opened Header
  import opened Blocks
  import opened Catalog
  import opened Patcher
  import opened Walk
  import opened Driver

  /** Each block the walk visits before ENDB ends no later than any block
      visited after it starts. */
  lemma {:induction false} WalkInOrder(endian: byte, b: seq<byte>, off: nat, i: nat, j: nat)
    requires Supported(endian) && Chain(endian, b, off)
    requires i < j < |BlockSequence(endian, b, off)|
    ensures var bs := BlockSequence(endian, b, off);
            End(bs[i]) <= bs[j].offset
    decreases j
  {
    if j == i + 1 {
      BlockSequenceAt(endian, b, off, i);
    } else {
      WalkInOrder(endian, b, off, i, j - 1);
      BlockSequenceAt(endian, b, off, j - 1);
    }
  }

  /** A block of the walk other than the closing ENDB lies, with its body,
      inside the buffer: the next header follows it there. */
  lemma BodyInFile(endian: byte, b: seq<byte>, off: nat, i: nat)
    requires Supported(endian) && Chain(endian, b, off)
    requires i + 1 < |BlockSequence(endian, b, off)|
    ensures var bs := BlockSequence(endian, b, off);
            IsBlock(b, bs[i]) && End(bs[i]) <= |b|
  {
    BlockSequenceAt(endian, b, off, i);
    BlockSequenceAt(endian, b, off, i + 1);
  }

  /** A sequence of blocks is in order exactly when its first block ends
      before every other starts and the rest is in order. */
  lemma InOrderCons(x: BlockInfo, ys: seq<BlockInfo>)
    ensures InOrder([x] + ys) <==> (forall y :: y in ys ==> End(x) <= y.offset) && InOrder(ys)
  {
    var xs := [x] + ys;
    assert forall i :: 0 < i < |xs| ==> xs[i] == ys[i - 1];
    if (forall y :: y in ys ==> End(x) <= y.offset) && InOrder(ys) {
      forall i, j | 0 <= i < j < |xs|
        ensures End(xs[i]) <= xs[j].offset
      {
        if i == 0 {
          assert xs[j] in ys;
        }
      }
    }
    if InOrder(xs) {
      forall y | y in ys
        ensures End(x) <= y.offset
      {
        var m :| 0 <= m < |ys| && ys[m] == y;
        assert xs[0] == x && xs[m + 1] == y;
      }
      forall i, j | 0 <= i < j < |ys|
        ensures End(ys[i]) <= ys[j].offset
      {
        assert ys[i] == xs[i + 1] && ys[j] == xs[j + 1];
      }
    }
  }

  /** Picking the target blocks keeps the file order of the walk. */
  lemma {:induction false} TargetsKeepOrder(xs: seq<BlockInfo>, target: int)
    requires InOrder(xs)
    ensures InOrder(Targets(xs, target))
  {
    if xs != [] {
      var tail := xs[1..];
      assert xs == [xs[0]] + tail;
      InOrderCons(xs[0], tail);
      TargetsKeepOrder(tail, target);
      var rest := Targets(tail, target);
      if IsTarget(xs[0], target) {
        assert Targets(xs, target) == [xs[0]] + rest;
        InOrderCons(xs[0], rest);
      } else {
        assert Targets(xs, target) == rest;
      }
    }
  }

  /** The walk visits the blocks in file order, without overlap. */
  lemma WalkIsInOrder(endian: byte, b: seq<byte>)
    requires Supported(endian) && Chain(endian, b, FILEBLOCKS_OFFSET)
    ensures InOrder(BlockSequence(endian, b, FILEBLOCKS_OFFSET))
  {
    var bs := BlockSequence(endian, b, FILEBLOCKS_OFFSET);
    forall i, j | 0 <= i < j < |bs|
      ensures End(bs[i]) <= bs[j].offset
    {
      WalkInOrder(endian, b, FILEBLOCKS_OFFSET, i, j);
    }
  }

  /** Every target block of the walk lies, with its body, inside the
      buffer. */
  lemma TargetsInFile(endian: byte, b: seq<byte>, target: int)
    requires Supported(endian) && Chain(endian, b, FILEBLOCKS_OFFSET)
    ensures forall t :: t in Targets(BlockSequence(endian, b, FILEBLOCKS_OFFSET), target) ==> IsBlock(b, t) && End(t) <= |b|
  {
    var bs := BlockSequence(endian, b, FILEBLOCKS_OFFSET);
    forall t | t in Targets(bs, target)
      ensures IsBlock(b, t) && End(t) <= |b|
    {
      var m :| 0 <= m < |bs| && bs[m] == t;
      DataInFile(endian, b, m);
    }
  }

  /** A DATA block of the walk is not its last block, so it lies, with its
      body, inside the buffer. */
  lemma DataInFile(endian: byte, b: seq<byte>, m: nat)
    requires Supported(endian) && Chain(endian, b, FILEBLOCKS_OFFSET)
    requires m < |BlockSequence(endian, b, FILEBLOCKS_OFFSET)| && BlockSequence(endian, b, FILEBLOCKS_OFFSET)[m].isData
    ensures var bs := BlockSequence(endian, b, FILEBLOCKS_OFFSET);
            IsBlock(b, bs[m]) && End(bs[m]) <= |b|
  {
    BlockSequenceAt(endian, b, FILEBLOCKS_OFFSET, m);
    BodyInFile(endian, b, FILEBLOCKS_OFFSET, m);
  }

  /** The blocks the run patches do not overlap and lie, bodies included,
      inside the file. */
  lemma TargetsDisjoint(endian: byte, b: seq<byte>, target: int)
    requires Supported(endian) && Chain(endian, b, FILEBLOCKS_OFFSET)
    ensures Disjoint(b, Targets(BlockSequence(endian, b, FILEBLOCKS_OFFSET), target))
  {
    WalkIsInOrder(endian, b);
    TargetsKeepOrder(BlockSequence(endian, b, FILEBLOCKS_OFFSET), target);
    TargetsInFile(endian, b, target);
  }

  /** On a file with the magic and a supported byte order, the run ends as
      the loop's plan over the walk does: with its error, with nothing to
      do when it patches no block, and with a written file otherwise. */
  lemma RunIsPlan(file: seq<byte>, fileName: string, catalog: Catalog, args: Args)
    requires WellFormed(file) && MagicOk(file) && Supported(file[8])
    ensures var cfg := Config(file[8], PtrSizeOf(file[7]));
            var check := Checker(cfg, file, PatchSpec(args.modifierName, args.oldEnumType, args.newEnumType));
            var p := Plan(BlockSequence(file[8], file, FILEBLOCKS_OFFSET), LookupSdnaIndex(catalog, args.modifierDataTypeName), check);
            var r := RunSpec(file, fileName, catalog, args);
            (p.Failure? ==> r == Aborted(p.error)) &&
            (p.Success? && p.value == [] ==> r == NothingToDo) &&
            (p.Success? && p.value != [] ==> r.Written?)
  {
    assert ParseHeader(file) == Success(Config(file[8], PtrSizeOf(file[7])));
  }

  /** A run on a well-formed file with a supported byte order aborts
      exactly when some target block fails its check, and then with the
      error of the first such block in file order. */
  lemma {:induction false} RunAborts(file: seq<byte>, fileName: string, catalog: Catalog, args: Args)
    requires WellFormed(file) && MagicOk(file) && Supported(file[8])
    ensures var cfg := Config(file[8], PtrSizeOf(file[7]));
            var check := Checker(cfg, file, PatchSpec(args.modifierName, args.oldEnumType, args.newEnumType));
            var ts := Targets(BlockSequence(file[8], file, FILEBLOCKS_OFFSET), LookupSdnaIndex(catalog, args.modifierDataTypeName));
            var r := RunSpec(file, fileName, catalog, args);
            (r.Aborted? <==> exists t :: t in ts && check(t).Fail?) &&
            (r.Aborted? ==> exists j :: 0 <= j < |ts| && check(ts[j]) == Fail(r.error) &&
                                        forall i :: 0 <= i < j ==> check(ts[i]).Pass?)
  {
    var cfg := Config(file[8], PtrSizeOf(file[7]));
    var check := Checker(cfg, file, PatchSpec(args.modifierName, args.oldEnumType, args.newEnumType));
    var bs := BlockSequence(file[8], file, FILEBLOCKS_OFFSET);
    var target := LookupSdnaIndex(catalog, args.modifierDataTypeName);
    RunIsPlan(file, fileName, catalog, args);
    PlanSucceeds(bs, target, check);
    if Plan(bs, target, check).Failure? {
      var j := PlanFails(bs, target, check);
      assert Targets(bs, target)[j] in Targets(bs, target);
    }
  }

  /** When no check fails, a run has nothing to do exactly when the walk
      holds no target block, and writes the file otherwise. */
  lemma {:induction false} RunFinishes(file: seq<byte>, fileName: string, catalog: Catalog, args: Args)
    requires WellFormed(file) && MagicOk(file) && Supported(file[8])
    ensures var cfg := Config(file[8], PtrSizeOf(file[7]));
            var check := Checker(cfg, file, PatchSpec(args.modifierName, args.oldEnumType, args.newEnumType));
            var ts := Targets(BlockSequence(file[8], file, FILEBLOCKS_OFFSET), LookupSdnaIndex(catalog, args.modifierDataTypeName));
            var r := RunSpec(file, fileName, catalog, args);
            (r == NothingToDo <==> ts == []) &&
            (r.Written? <==> ts != [] && forall t :: t in ts ==> check(t).Pass?)
  {
    var cfg := Config(file[8], PtrSizeOf(file[7]));
    var check := Checker(cfg, file, PatchSpec(args.modifierName, args.oldEnumType, args.newEnumType));
    var bs := BlockSequence(file[8], file, FILEBLOCKS_OFFSET);
    var target := LookupSdnaIndex(catalog, args.modifierDataTypeName);
    RunIsPlan(file, fileName, catalog, args);
    PlanSucceeds(bs, target, check);
  }

  /** The file a run writes: the input with the target blocks patched, in
      file order, under the converted name; every target passed its check. */
  lemma WrittenIsPatched(file: seq<byte>, fileName: string, catalog: Catalog, args: Args)
    requires WellFormed(file) && RunSpec(file, fileName, catalog, args).Written?
    ensures MagicOk(file) && Supported(file[8])
    ensures var cfg := Config(file[8], PtrSizeOf(file[7]));
            var check := Checker(cfg, file, PatchSpec(args.modifierName, args.oldEnumType, args.newEnumType));
            var ts := Targets(BlockSequence(file[8], file, FILEBLOCKS_OFFSET), LookupSdnaIndex(catalog, args.modifierDataTypeName));
            var r := RunSpec(file, fileName, catalog, args);
            ts != [] && Disjoint(file, ts) && (forall t :: t in ts ==> check(t).Pass?) &&
            r == Written(ConvertedName(fileName), Apply(cfg, file, ts, args.newEnumType))
  {
    var cfg := Config(file[8], PtrSizeOf(file[7]));
    var check := Checker(cfg, file, PatchSpec(args.modifierName, args.oldEnumType, args.newEnumType));
    var target := LookupSdnaIndex(catalog, args.modifierDataTypeName);
    var bs := BlockSequence(file[8], file, FILEBLOCKS_OFFSET);
    assert ParseHeader(file) == Success(cfg);
    PlanSucceeds(bs, target, check);
    TargetsDisjoint(file[8], file, target);
  }

  /** Every block the run patched held, before the patch, the modifier name
      and the old enum value given on the command line. */
  lemma WrittenMatched(file: seq<byte>, fileName: string, catalog: Catalog, args: Args, t: BlockInfo)
    requires WellFormed(file) && RunSpec(file, fileName, catalog, args).Written?
    requires MagicOk(file) && Supported(file[8])
    requires t in Targets(BlockSequence(file[8], file, FILEBLOCKS_OFFSET), LookupSdnaIndex(catalog, args.modifierDataTypeName))
    ensures IsBlock(file, t)
    ensures var body := Bytes(file, BodyView(file, t.offset, t.bodyLength));
            ReadString(body, MODIFIER_NAME_OFFSET, MODIFIER_NAME_LENGTH) == args.modifierName &&
            ReadUint32(file[8], body, EnumOffset(PtrSizeOf(file[7]))) == Success(args.oldEnumType)
  {
    WrittenIsPatched(file, fileName, catalog, args);
  }

  /** In the written file the enum field of every patched block whose body
      holds the whole field reads the new value as a signed 32-bit number. */
  lemma WrittenEnum(file: seq<byte>, fileName: string, catalog: Catalog, args: Args, t: BlockInfo)
    requires WellFormed(file) && RunSpec(file, fileName, catalog, args).Written?
    requires MagicOk(file) && Supported(file[8])
    requires t in Targets(BlockSequence(file[8], file, FILEBLOCKS_OFFSET), LookupSdnaIndex(catalog, args.modifierDataTypeName))
    requires EnumOffset(PtrSizeOf(file[7])) + 4 <= t.bodyLength
    ensures var cfg := Config(file[8], PtrSizeOf(file[7]));
            ReadUint32(cfg.endian, RunSpec(file, fileName, catalog, args).content, EnumPos(cfg, t.offset))
              == Success(ToInt32(args.newEnumType))
  {
    var cfg := Config(file[8], PtrSizeOf(file[7]));
    var ts := Targets(BlockSequence(file[8], file, FILEBLOCKS_OFFSET), LookupSdnaIndex(catalog, args.modifierDataTypeName));
    WrittenIsPatched(file, fileName, catalog, args);
    var m :| 0 <= m < |ts| && ts[m] == t;
    ApplyReadsBack(cfg, file, ts, args.newEnumType, m);
  }

  /** The written file has the length of the input and differs from it
      only in the enum fields of the patched blocks. */
  lemma WrittenElsewhere(file: seq<byte>, fileName: string, catalog: Catalog, args: Args, i: nat)
    requires WellFormed(file) && RunSpec(file, fileName, catalog, args).Written?
    requires MagicOk(file) && Supported(file[8]) && i < |file|
    requires var cfg := Config(file[8], PtrSizeOf(file[7]));
             forall t :: t in Targets(BlockSequence(file[8], file, FILEBLOCKS_OFFSET), LookupSdnaIndex(catalog, args.modifierDataTypeName)) ==>
               !(EnumPos(cfg, t.offset) <= i < EnumPos(cfg, t.offset) + 4)
    ensures |RunSpec(file, fileName, catalog, args).content| == |file|
    ensures RunSpec(file, fileName, catalog, args).content[i] == file[i]
  {
    var cfg := Config(file[8], PtrSizeOf(file[7]));
    var ts := Targets(BlockSequence(file[8], file, FILEBLOCKS_OFFSET), LookupSdnaIndex(catalog, args.modifierDataTypeName));
    WrittenIsPatched(file, fileName, catalog, args);
    ApplyOutside(cfg, file, ts, args.newEnumType);
  }

  /** When the catalog has no struct for the data type name, the lookup's
      -1 is still compared with the signed SDNA index of every DATA block:
      the run has nothing to do exactly when no DATA block's index field
      holds 0xFFFFFFFF. */
  lemma CatalogMiss(file: seq<byte>, fileName: string, catalog: Catalog, args: Args)
    requires WellFormed(file) && MagicOk(file) && Supported(file[8])
    requires LookupSdnaIndex(catalog, args.modifierDataTypeName) == -1
    ensures RunSpec(file, fileName, catalog, args) == NothingToDo <==>
            forall s :: s in BlockSequence(file[8], file, FILEBLOCKS_OFFSET) && s.isData ==> s.sdnaIndex != -1
  {
    RunFinishes(file, fileName, catalog, args);
    NoTargets(BlockSequence(file[8], file, FILEBLOCKS_OFFSET), -1);
  }
}
