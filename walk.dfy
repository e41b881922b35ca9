/** What the main loop of bl_modconv.js does to a well-formed file, stated
    on the sequence of blocks it visits: which blocks it patches (Plan) and
    what the buffer looks like afterwards (Apply). */
module Walk {
  import opened Base
  import opened Codec
  import opened Header
  import opened Blocks
  import opened Patcher

  /** `header.code === "DATA" && header.sdnaIndex === sdnaIndex`. The
      comparison is on the signed value, so a target of -1 matches an index
      field of 0xFFFFFFFF. */
  predicate IsTarget(info: BlockInfo, target: int) {
    info.isData && info.sdnaIndex == target
  }

  /** The header of the block lies in the buffer and its body length is not
      negative, so its body view exists. */
  predicate IsBlock(b: seq<byte>, info: BlockInfo) {
    info.offset + BLOCK_HEADER_LENGTH <= |b| && info.bodyLength >= 0
  }

  /** The checks of patchFileBlock on a block. */
  function CheckAt(cfg: Config, b: seq<byte>, info: BlockInfo, spec: PatchSpec): (r: Outcome<Error>)
    requires IsBlock(b, info)
    ensures !Supported(cfg.endian) ==> r == Fail(UnsupportedEndianness(cfg.endian))
  {
    CheckBody(cfg, Bytes(b, BodyView(b, info.offset, info.bodyLength)), info.sdnaIndex, spec)
  }

  /** The enum the check compares is the word of the file at the block's
      offset + 24 + 2 * ptrSize, whenever the body holds it. */
  lemma CheckReadsFile(cfg: Config, b: seq<byte>, info: BlockInfo)
    requires IsBlock(b, info)
    requires EnumPos(cfg, info.offset) + 4 <= BodyView(b, info.offset, info.bodyLength).end
    ensures ReadUint32(cfg.endian, Bytes(b, BodyView(b, info.offset, info.bodyLength)), EnumOffset(cfg.ptrSize))
         == ReadUint32(cfg.endian, b, EnumPos(cfg, info.offset))
  {
    var body := Bytes(b, BodyView(b, info.offset, info.bodyLength));
    var e, p := EnumOffset(cfg.ptrSize), EnumPos(cfg, info.offset);
    BytesIsSlice(b, BodyView(b, info.offset, info.bodyLength));
    assert ByteAt(body, e) == ByteAt(b, p) && ByteAt(body, e + 1) == ByteAt(b, p + 1);
    assert ByteAt(body, e + 2) == ByteAt(b, p + 2) && ByteAt(body, e + 3) == ByteAt(b, p + 3);
  }

  /** CheckAt for every block; entries that are not blocks never reach it. */
  function Checker(cfg: Config, b: seq<byte>, spec: PatchSpec): BlockInfo -> Outcome<Error> {
    info => if IsBlock(b, info) then CheckAt(cfg, b, info, spec) else Pass
  }

  /** The main loop over the blocks it visits: a target block is checked
      (and, in the buffer, patched) before the loop moves on; the first
      failing check stops the run. The result lists the patched blocks. */
  function Plan(blocks: seq<BlockInfo>, target: int, check: BlockInfo -> Outcome<Error>): (r: Result<seq<BlockInfo>, Error>)
    ensures r.Success? ==> |r.value| <= |blocks| && forall t :: t in r.value ==> t in blocks && IsTarget(t, target)
  {
    if blocks == [] then Success([])
    else if IsTarget(blocks[0], target) then
      match check(blocks[0])
      case Fail(e) => Failure(e)
      case Pass =>
        var rest := Plan(blocks[1..], target, check);
        if rest.Failure? then rest else Success([blocks[0]] + rest.value)
    else Plan(blocks[1..], target, check)
  }

  /** The target blocks, in order: what the loop patches when every check
      passes. */
  function Targets(blocks: seq<BlockInfo>, target: int): (ts: seq<BlockInfo>)
    ensures |ts| <= |blocks|
    ensures forall t :: t in ts ==> t in blocks && IsTarget(t, target)
    ensures forall x :: x in blocks && IsTarget(x, target) ==> x in ts
  {
    if blocks == [] then []
    else
      var rest := Targets(blocks[1..], target);
      assert forall x :: x in blocks ==> x == blocks[0] || x in blocks[1..];
      (if IsTarget(blocks[0], target) then [blocks[0]] else []) + rest
  }

  /** No block is a target exactly when no DATA block carries the index. */
  lemma NoTargets(blocks: seq<BlockInfo>, target: int)
    ensures Targets(blocks, target) == [] <==> forall s :: s in blocks && s.isData ==> s.sdnaIndex != target
  {
    var ts := Targets(blocks, target);
    if ts != [] {
      assert ts[0] in ts;
    }
  }

  /** The loop succeeds exactly when every target block passes its check,
      and then it patches precisely the target blocks, in order. */
  lemma {:induction false} PlanSucceeds(blocks: seq<BlockInfo>, target: int, check: BlockInfo -> Outcome<Error>)
    ensures var r := Plan(blocks, target, check);
            (r.Success? <==> forall t :: t in Targets(blocks, target) ==> check(t).Pass?) &&
            (r.Success? ==> r.value == Targets(blocks, target))
  {
    if blocks != [] {
      PlanSucceeds(blocks[1..], target, check);
      assert forall x :: x in Targets(blocks, target) ==> x == blocks[0] || x in Targets(blocks[1..], target);
    }
  }

  /** When the loop aborts, the error is that of the first target block
      whose check fails; k is its position among the target blocks. */
  lemma {:induction false} PlanFails(blocks: seq<BlockInfo>, target: int, check: BlockInfo -> Outcome<Error>)
    returns (k: nat)
    requires Plan(blocks, target, check).Failure?
    ensures k < |Targets(blocks, target)|
    ensures check(Targets(blocks, target)[k]) == Fail(Plan(blocks, target, check).error)
    ensures forall j :: 0 <= j < k ==> check(Targets(blocks, target)[j]).Pass?
  {
    var ts := Targets(blocks, target);
    var rest := Targets(blocks[1..], target);
    if IsTarget(blocks[0], target) {
      assert ts == [blocks[0]] + rest;
      if check(blocks[0]).Fail? {
        k := 0;
      } else {
        var k' := PlanFails(blocks[1..], target, check);
        k := k' + 1;
        forall j | 0 < j < k
          ensures check(ts[j]).Pass?
        {
          assert ts[j] == rest[j - 1];
        }
      }
    } else {
      assert ts == rest;
      k := PlanFails(blocks[1..], target, check);
    }
  }

  /** The loop over two stretches of blocks is the loop over the first,
      then, if that did not abort, the loop over the second. */
  lemma {:induction false} PlanAppend(xs: seq<BlockInfo>, ys: seq<BlockInfo>, target: int, check: BlockInfo -> Outcome<Error>)
    ensures var p := Plan(xs, target, check);
            var q := Plan(ys, target, check);
            Plan(xs + ys, target, check) ==
              if p.Failure? then p else if q.Failure? then q else Success(p.value + q.value)
  {
    if xs != [] {
      assert (xs + ys)[0] == xs[0];
      assert (xs + ys)[1..] == xs[1..] + ys;
      PlanAppend(xs[1..], ys, target, check);
      var p' := Plan(xs[1..], target, check);
      var q := Plan(ys, target, check);
      if IsTarget(xs[0], target) && check(xs[0]).Pass? && p'.Success? && q.Success? {
        assert [xs[0]] + (p'.value + q.value) == ([xs[0]] + p'.value) + q.value;
      }
    } else {
      assert xs + ys == ys;
      var q := Plan(ys, target, check);
      if q.Success? {
        assert [] + q.value == q.value;
      }
    }
  }

  /** The buffer after patching the listed blocks, one after the other:
      each stores the new enum through the body view of its block. */
  function Apply(cfg: Config, b: seq<byte>, sites: seq<BlockInfo>, newEnumType: int): (r: seq<byte>)
    requires Supported(cfg.endian)
    requires forall s :: s in sites ==> IsBlock(b, s)
    ensures |r| == |b|
  {
    if sites == [] then b
    else
      var s := sites[|sites| - 1];
      assert s in sites;
      assert IsBlock(b, s);
      assert forall x :: x in sites[..|sites| - 1] ==> x in sites;
      WriteEnum(cfg, Apply(cfg, b, sites[..|sites| - 1], newEnumType), s.offset, s.bodyLength, newEnumType)
  }

  /** Where a block ends: its header, then its body. */
  function End(info: BlockInfo): (e: int)
    ensures info.bodyLength >= 0 ==> e >= info.offset + BLOCK_HEADER_LENGTH
  {
    info.offset + BLOCK_HEADER_LENGTH + info.bodyLength
  }

  /** Each block ends at or before every later one starts. */
  ghost predicate InOrder(xs: seq<BlockInfo>) {
    forall i, j :: 0 <= i < j < |xs| ==> End(xs[i]) <= xs[j].offset
  }

  /** The listed blocks lie, bodies included, inside the buffer, in file
      order and without overlapping. */
  ghost predicate Disjoint(b: seq<byte>, sites: seq<BlockInfo>) {
    (forall s :: s in sites ==> IsBlock(b, s) && End(s) <= |b|) && InOrder(sites)
  }

  /** Patching leaves every byte outside the enum fields of the patched
      blocks as it was. */
  lemma {:induction false} ApplyOutside(cfg: Config, b: seq<byte>, sites: seq<BlockInfo>, newEnumType: int)
    requires Supported(cfg.endian) && forall s :: s in sites ==> IsBlock(b, s)
    ensures forall i :: 0 <= i < |b| && (forall s :: s in sites ==> !(EnumPos(cfg, s.offset) <= i < EnumPos(cfg, s.offset) + 4)) ==>
              Apply(cfg, b, sites, newEnumType)[i] == b[i]
  {
    if sites != [] {
      var init := sites[..|sites| - 1];
      assert forall x :: x in init ==> x in sites;
      ApplyOutside(cfg, b, init, newEnumType);
      assert sites[|sites| - 1] in sites;
    }
  }

  /** Apply over a non-empty list is the last patch applied after the
      others. */
  lemma ApplyLast(cfg: Config, b: seq<byte>, sites: seq<BlockInfo>, newEnumType: int)
    requires Supported(cfg.endian) && sites != [] && forall s :: s in sites ==> IsBlock(b, s)
    ensures forall s :: s in sites[..|sites| - 1] ==> IsBlock(b, s)
    ensures IsBlock(b, sites[|sites| - 1])
    ensures var s := sites[|sites| - 1];
            Apply(cfg, b, sites, newEnumType) ==
            WriteEnum(cfg, Apply(cfg, b, sites[..|sites| - 1], newEnumType), s.offset, s.bodyLength, newEnumType)
  {
    assert forall x :: x in sites[..|sites| - 1] ==> x in sites;
    assert sites[|sites| - 1] in sites;
  }

  /** A prefix of blocks that do not overlap does not overlap either. */
  lemma DisjointPrefix(b: seq<byte>, sites: seq<BlockInfo>, n: nat)
    requires Disjoint(b, sites) && n <= |sites|
    ensures Disjoint(b, sites[..n])
  {
    var init := sites[..n];
    assert forall i :: 0 <= i < n ==> init[i] == sites[i];
    assert forall x :: x in init ==> x in sites;
  }

  /** Four bytes that end before the body of the last patched block read
      as they did before that patch. */
  lemma ApplyKeepsEarlier(cfg: Config, b: seq<byte>, sites: seq<BlockInfo>, newEnumType: int, pos: nat)
    requires Supported(cfg.endian) && sites != [] && forall s :: s in sites ==> IsBlock(b, s)
    requires pos + 4 <= sites[|sites| - 1].offset + BLOCK_HEADER_LENGTH
    ensures forall s :: s in sites[..|sites| - 1] ==> IsBlock(b, s)
    ensures ReadUint32(cfg.endian, Apply(cfg, b, sites, newEnumType), pos)
         == ReadUint32(cfg.endian, Apply(cfg, b, sites[..|sites| - 1], newEnumType), pos)
  {
    var s := sites[|sites| - 1];
    ApplyLast(cfg, b, sites, newEnumType);
    WriteEnumElsewhere(cfg, Apply(cfg, b, sites[..|sites| - 1], newEnumType), s.offset, s.bodyLength, newEnumType, pos);
  }

  /** After patching blocks that do not overlap, the enum field of each
      one whose body holds the whole field reads back the new value as a
      signed 32-bit number: no later patch touches it. */
  lemma {:induction false} ApplyReadsBack(cfg: Config, b: seq<byte>, sites: seq<BlockInfo>, newEnumType: int, j: nat)
    requires Supported(cfg.endian) && Disjoint(b, sites) && j < |sites|
    requires EnumOffset(cfg.ptrSize) + 4 <= sites[j].bodyLength
    ensures ReadUint32(cfg.endian, Apply(cfg, b, sites, newEnumType), EnumPos(cfg, sites[j].offset))
         == Success(ToInt32(newEnumType))
  {
    var n := |sites| - 1;
    var s := sites[n];
    assert s in sites;
    if j == n {
      ApplyLast(cfg, b, sites, newEnumType);
      WriteEnumReadsBack(cfg, Apply(cfg, b, sites[..n], newEnumType), s.offset, s.bodyLength, newEnumType);
    } else {
      DisjointPrefix(b, sites, n);
      assert sites[..n][j] == sites[j];
      ApplyReadsBack(cfg, b, sites[..n], newEnumType, j);
      EarlierSiteKept(cfg, b, sites, newEnumType, j);
    }
  }

  /** The patch of the last block leaves the enum field of an earlier
      block, which ends before it, reading as it did. */
  lemma EarlierSiteKept(cfg: Config, b: seq<byte>, sites: seq<BlockInfo>, newEnumType: int, j: nat)
    requires Supported(cfg.endian) && Disjoint(b, sites) && j < |sites| - 1
    requires EnumOffset(cfg.ptrSize) + 4 <= sites[j].bodyLength
    ensures ReadUint32(cfg.endian, Apply(cfg, b, sites, newEnumType), EnumPos(cfg, sites[j].offset))
         == ReadUint32(cfg.endian, Apply(cfg, b, sites[..|sites| - 1], newEnumType), EnumPos(cfg, sites[j].offset))
  {
    assert End(sites[j]) <= sites[|sites| - 1].offset;
    ApplyKeepsEarlier(cfg, b, sites, newEnumType, EnumPos(cfg, sites[j].offset));
  }

  /** Plan over one more block: unchanged for a block that is not a target,
      extended by it when its check passes, its error when not. */
  lemma {:induction false} PlanSnoc(visited: seq<BlockInfo>, info: BlockInfo, target: int, check: BlockInfo -> Outcome<Error>)
    requires Plan(visited, target, check).Success?
    ensures var p := Plan(visited, target, check);
            Plan(visited + [info], target, check) ==
              if !IsTarget(info, target) then p
              else if check(info).Fail? then Failure(check(info).error)
              else Success(p.value + [info])
  {
    PlanAppend(visited, [info], target, check);
    assert [info][1..] == [];
    assert Plan([], target, check) == Success([]);
    assert [info] + [] == [info];
    assert Plan(visited, target, check).value + [] == Plan(visited, target, check).value;
  }

  /** The loop after k' = k + 1 blocks, when the k-th passes its check or
      is not a target. */
  lemma PlanNext(blocks: seq<BlockInfo>, k: nat, done: seq<BlockInfo>, target: int, check: BlockInfo -> Outcome<Error>,
                 k': nat, done': seq<BlockInfo>)
    requires k < |blocks| && Plan(blocks[..k], target, check) == Success(done)
    requires IsTarget(blocks[k], target) ==> check(blocks[k]).Pass?
    requires k' == k + 1
    requires done' == if IsTarget(blocks[k], target) then done + [blocks[k]] else done
    ensures Plan(blocks[..k'], target, check) == Success(done')
  {
    assert blocks[..k + 1] == blocks[..k] + [blocks[k]];
    PlanSnoc(blocks[..k], blocks[k], target, check);
  }

  /** A target whose check fails, reached without an earlier failure, is
      the error of the whole loop. */
  lemma PlanStop(blocks: seq<BlockInfo>, k: nat, done: seq<BlockInfo>, target: int, check: BlockInfo -> Outcome<Error>)
    requires k < |blocks| && Plan(blocks[..k], target, check) == Success(done)
    requires IsTarget(blocks[k], target) && check(blocks[k]).Fail?
    ensures Plan(blocks, target, check) == Failure(check(blocks[k]).error)
  {
    assert blocks == blocks[..k] + blocks[k..];
    PlanAppend(blocks[..k], blocks[k..], target, check);
    assert blocks[k..][0] == blocks[k];
  }
}
