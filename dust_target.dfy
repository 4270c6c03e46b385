/**
  The dust target as the kernel runs it: `struct dust_device` as a class
  whose methods update its fields in place. Each spin-locked region is one
  method call. Through the abstract view `State()`, most methods are proved
  against the function of the same name in `DustSpec`. `QueryBlock` and
  `MapReadLocked` state their result on the tree contents; `Message` and
  its four helpers are proved against `DustSpec.Message`, and the
  constructor against `DustSpec.Initial`.
 */
module DustTarget {
  import opened KernelTypes
  import opened BadBlockTree
  import opened DustSpec

  /** `struct dust_device` (the device handle and the lock are not modelled). */
  class DustDevice {
    var badblocklistRead: Tree
    var badblocklistWrite: Tree
    var badblockCountRead: u64
    var badblockCountWrite: u64
    const blksz: nat
    const sectPerBlockShift: nat
    const sectPerBlock: nat
    const start: u64
    var failWriteOnBb: bool
    var failReadOnBb: bool
    var quietMode: bool

    ghost predicate Valid()
      reads this
    {
      && Ordered(badblocklistRead) && Ordered(badblocklistWrite)
      && ValidGeometry(Geom())
    }

    /** The fields fixed by the constructor. */
    function Geom(): Geometry
    {
      Geometry(blksz, sectPerBlock, sectPerBlockShift, start)
    }

    /** The device's state as a value: each tree by the map it holds. */
    ghost function State(): DustState
      reads this
    {
      DustState(Contents(badblocklistRead), Contents(badblocklistWrite),
                badblockCountRead, badblockCountWrite,
                failReadOnBb, failWriteOnBb, quietMode)
    }

    /** The second half of `dust_ctr`: fill in the geometry and start with empty lists and every flag off. */
    constructor (g: Geometry)
      requires ValidGeometry(g)
      ensures Valid() && Geom() == g && State() == Initial()
    {
      blksz := g.blksz;
      sectPerBlock := g.sectPerBlock;
      start := g.start;
      sectPerBlockShift := g.sectPerBlockShift;
      failReadOnBb := false;
      failWriteOnBb := false;
      badblocklistRead := Leaf;
      badblockCountRead := 0;
      badblocklistWrite := Leaf;
      badblockCountWrite := 0;
      quietMode := false;
    }

    /** `dust_remove_block`. */
    method RemoveBlock(block: nat, mode: Mode) returns (r: int)
      requires Valid()
      modifies this
      ensures Valid()
      ensures Outcome(r, State(), NoReport) == DustSpec.RemoveBlock(old(State()), block, mode)
    {
      var bblock: Option<Entry>;
      if mode == Read {
        bblock := Search(badblocklistRead, block);
      } else {
        bblock := Search(badblocklistWrite, block);
      }
      if bblock.None? {
        return -EINVAL;
      }
      if mode == Read {
        EraseWithin(badblocklistRead, block, -1, None);
        badblocklistRead := Erase(badblocklistRead, block);
      } else {
        EraseWithin(badblocklistWrite, block, -1, None);
        badblocklistWrite := Erase(badblocklistWrite, block);
      }
      if mode == Read {
        badblockCountRead := Dec64(badblockCountRead);
      } else {
        badblockCountWrite := Dec64(badblockCountWrite);
      }
      return 0;
    }

    /** `dust_add_block`; `allocOk` is false when the record cannot be allocated. */
    method AddBlock(block: nat, wrFailCnt: u8, mode: Mode, allocOk: bool) returns (r: int)
      requires Valid()
      modifies this
      ensures Valid()
      ensures Outcome(r, State(), NoReport) == DustSpec.AddBlock(old(State()), block, wrFailCnt, mode, allocOk)
    {
      if !allocOk {
        return -ENOMEM;
      }
      var bblock := Entry(block, wrFailCnt);
      var inserted: bool, root: Tree;
      if mode == Read {
        inserted, root := Insert(badblocklistRead, bblock);
        if !inserted {
          return -EINVAL;
        }
        badblocklistRead := root;
      } else {
        inserted, root := Insert(badblocklistWrite, bblock);
        if !inserted {
          return -EINVAL;
        }
        badblocklistWrite := root;
      }
      // Both branches update the read counter, as the source does.
      if mode == Read {
        badblockCountRead := Inc64(badblockCountRead);
      } else {
        badblockCountRead := Inc64(badblockCountRead);
      }
      return 0;
    }

    /** `dust_query_block`: returns 0; `found` is what it logs. */
    method QueryBlock(block: nat, mode: Mode) returns (r: int, found: bool)
      requires Valid()
      ensures r == 0
      ensures found <==> block in List(State(), mode)
    {
      var bblock: Option<Entry>;
      if mode == Read {
        bblock := Search(badblocklistRead, block);
      } else {
        bblock := Search(badblocklistWrite, block);
      }
      found := bblock.Some?;
      r := 0;
    }

    /** `__dust_map_read`. */
    method MapReadLocked(thisblock: nat) returns (r: MapResult)
      requires Valid()
      ensures r == Kill <==> thisblock in Contents(badblocklistRead)
    {
      var bblk := Search(badblocklistRead, thisblock);
      if bblk.Some? {
        return Kill;
      }
      return Remapped;
    }

    /** `dust_map_read`: the flag is passed in by the caller. */
    method MapRead(thisblock: u64, failReadOnBb: bool) returns (r: MapResult)
      requires Valid()
      ensures r == DustSpec.MapRead(State(), sectPerBlockShift, thisblock, failReadOnBb)
    {
      r := Remapped;
      if failReadOnBb {
        var blk := BlockOf(thisblock, sectPerBlockShift);
        r := MapReadLocked(blk);
      }
    }

    /** `__dust_map_write`: reads the device's own flags. */
    method MapWriteLocked(thisblock: nat) returns (r: MapResult)
      requires Valid()
      modifies this
      ensures Valid()
      ensures IoOutcome(r, State()) == DustSpec.MapWriteLocked(old(State()), thisblock)
    {
      var bblkR := Search(badblocklistRead, thisblock);
      var bblkW := Search(badblocklistWrite, thisblock);
      if failWriteOnBb {
        if bblkW.Some? {
          return Kill;
        }
      }
      if failReadOnBb {
        if bblkR.Some? && bblkR.value.wrFailCnt > 0 {
          SetCountWithin(badblocklistRead, thisblock, bblkR.value.wrFailCnt - 1, -1, None);
          badblocklistRead := SetCount(badblocklistRead, thisblock, bblkR.value.wrFailCnt - 1);
          return Kill;
        }
        if bblkR.Some? {
          EraseWithin(badblocklistRead, thisblock, -1, None);
          badblocklistRead := Erase(badblocklistRead, thisblock);
          badblockCountRead := Dec64(badblockCountRead);
        }
      }
      return Remapped;
    }

    /** `dust_map_write`: the flags are passed in by the caller. */
    method MapWrite(thisblock: u64, failReadOnBb: bool, failWriteOnBb: bool) returns (r: MapResult)
      requires Valid()
      modifies this
      ensures Valid()
      ensures IoOutcome(r, State()) ==
        DustSpec.MapWrite(old(State()), sectPerBlockShift, thisblock, failReadOnBb, failWriteOnBb)
    {
      r := Remapped;
      if failWriteOnBb {
        r := MapWriteLocked(BlockOf(thisblock, sectPerBlockShift));
      } else if failReadOnBb {
        r := MapWriteLocked(BlockOf(thisblock, sectPerBlockShift));
      }
    }

    /** `dust_map`: `offset` is the request's sector relative to the target. */
    method Map(dir: Direction, offset: u64) returns (r: MapResult)
      requires Valid()
      modifies this
      ensures Valid()
      ensures IoOutcome(r, State()) == DustSpec.Map(old(State()), sectPerBlockShift, start, dir, offset)
    {
      var sector: u64 := (start + offset) % U64_LIMIT;
      if dir == IoRead {
        r := MapRead(sector, failReadOnBb);
      } else {
        r := MapWrite(sector, failReadOnBb, failWriteOnBb);
      }
    }

    /**
      `dust_clear_badblocks`: detach the selected tree and counter and reset
      them, then free the detached tree with `__dust_clear_badblocks`.
     */
    method ClearBadblocks(mode: Mode) returns (r: int, nonEmpty: bool, bugOn: bool)
      requires Valid()
      modifies this
      ensures Valid()
      ensures Outcome(r, State(), Cleared(nonEmpty, bugOn)) == DustSpec.ClearBadblocks(old(State()), mode)
    {
      var detached: Tree, count: u64;
      if mode == Read {
        detached, count := badblocklistRead, badblockCountRead;
        badblocklistRead, badblockCountRead := Leaf, 0;
      } else {
        detached, count := badblocklistWrite, badblockCountWrite;
        badblocklistWrite, badblockCountWrite := Leaf, 0;
      }
      nonEmpty, bugOn := ClearAll(detached, count);
      r := 0;
    }

    /**
      `dust_message`. `devSectors` is the size of the underlying device in
      sectors; `allocOk` is passed on to an add. `report` is what the
      target logs for queryblock, countbadblocks and clearbadblocks. The
      dispatch on the argument count is split over four methods below.
     */
    method Message(argv: seq<Token>, devSectors: nat, allocOk: bool) returns (r: int, report: Report)
      requires Valid()
      modifies this
      ensures Valid()
      ensures Outcome(r, State(), report) == DustSpec.Message(old(State()), sectPerBlock, argv, devSectors, allocOk)
    {
      if |argv| == 1 {
        r, report := OneWordMessage(argv, devSectors, allocOk);
      } else if |argv| == 2 {
        r, report := TwoWordMessage(argv, devSectors, allocOk);
      } else if |argv| == 3 {
        r, report := BlockMessage(argv, devSectors, allocOk);
      } else if |argv| == 4 {
        r, report := BlockCountMessage(argv, devSectors, allocOk);
      } else {
        r, report := -EINVAL, NoReport;
      }
    }

    /** `dust_message` with one argument: only "quiet" is accepted, and it flips `quiet_mode`. */
    method OneWordMessage(argv: seq<Token>, devSectors: nat, allocOk: bool) returns (r: int, report: Report)
      requires Valid() && |argv| == 1
      modifies this
      ensures Valid()
      ensures Outcome(r, State(), report) == DustSpec.Message(old(State()), sectPerBlock, argv, devSectors, allocOk)
    {
      r, report := -EINVAL, NoReport;
      if IsWord(argv[0], "quiet") {
        if !quietMode {
          quietMode := true;
        } else {
          quietMode := false;
        }
        r := 0;
      }
    }

    /** `dust_message` with two arguments: enable, disable, clearbadblocks or countbadblocks of a list. */
    method TwoWordMessage(argv: seq<Token>, devSectors: nat, allocOk: bool) returns (r: int, report: Report)
      requires Valid() && |argv| == 2
      modifies this
      ensures Valid()
      ensures Outcome(r, State(), report) == DustSpec.Message(old(State()), sectPerBlock, argv, devSectors, allocOk)
    {
      r, report := -EINVAL, NoReport;
      if IsWord(argv[0], "enable") {
        if IsWord(argv[1], "read") {
          failReadOnBb := true;
          r := 0;
        } else if IsWord(argv[1], "write") {
          failWriteOnBb := true;
          r := 0;
        }
      } else if IsWord(argv[0], "disable") {
        if IsWord(argv[1], "read") {
          failReadOnBb := false;
          r := 0;
        } else if IsWord(argv[1], "write") {
          failWriteOnBb := false;
          r := 0;
        }
      } else if IsWord(argv[0], "clearbadblocks") {
        var nonEmpty, bugOn;
        if IsWord(argv[1], "read") {
          r, nonEmpty, bugOn := ClearBadblocks(Read);
          report := Cleared(nonEmpty, bugOn);
        } else if IsWord(argv[1], "write") {
          r, nonEmpty, bugOn := ClearBadblocks(Write);
          report := Cleared(nonEmpty, bugOn);
        }
      } else if IsWord(argv[0], "countbadblocks") {
        if IsWord(argv[1], "read") {
          report := Counted(badblockCountRead);
          r := 0;
        } else if IsWord(argv[1], "write") {
          report := Counted(badblockCountWrite);
          r := 0;
        }
      }
    }

    /** `dust_message` with three arguments: add, remove or query a block, after the range check. */
    method BlockMessage(argv: seq<Token>, devSectors: nat, allocOk: bool) returns (r: int, report: Report)
      requires Valid() && |argv| == 3
      modifies this
      ensures Valid()
      ensures Outcome(r, State(), report) == DustSpec.Message(old(State()), sectPerBlock, argv, devSectors, allocOk)
    {
      var size := devSectors;
      r, report := -EINVAL, NoReport;
      if argv[2].number.None? {
        return;
      }
      var block := argv[2].number.value;
      size := size / sectPerBlock;
      if block > size {
        return;
      }
      if IsWord(argv[0], "addbadblock") {
        if IsWord(argv[1], "read") {
          r := AddBlock(block, 0, Read, allocOk);
        } else if IsWord(argv[1], "write") {
          r := AddBlock(block, 0, Write, allocOk);
        }
      } else if IsWord(argv[0], "removebadblock") {
        if IsWord(argv[1], "read") {
          r := RemoveBlock(block, Read);
        } else if IsWord(argv[1], "write") {
          r := RemoveBlock(block, Write);
        }
      } else if IsWord(argv[0], "queryblock") {
        var found;
        if IsWord(argv[1], "read") {
          r, found := QueryBlock(block, Read);
          report := Presence(found);
        } else if IsWord(argv[1], "write") {
          r, found := QueryBlock(block, Write);
          report := Presence(found);
        }
      }
    }

    /** `dust_message` with four arguments: add a block with a write-fail count of at most 255. */
    method BlockCountMessage(argv: seq<Token>, devSectors: nat, allocOk: bool) returns (r: int, report: Report)
      requires Valid() && |argv| == 4
      modifies this
      ensures Valid()
      ensures Outcome(r, State(), report) == DustSpec.Message(old(State()), sectPerBlock, argv, devSectors, allocOk)
    {
      var size := devSectors;
      r, report := -EINVAL, NoReport;
      if argv[2].number.None? {
        return;
      }
      if argv[3].number.None? {
        return;
      }
      var block := argv[2].number.value;
      if argv[3].number.value > 255 {
        return;
      }
      var wrFailCnt: u8 := argv[3].number.value;
      size := size / sectPerBlock;
      if block > size {
        return;
      }
      if IsWord(argv[0], "addbadblock") {
        if IsWord(argv[1], "read") {
          r := AddBlock(block, wrFailCnt, Read, allocOk);
        } else if IsWord(argv[1], "write") {
          r := AddBlock(block, wrFailCnt, Write, allocOk);
        }
      }
    }
  }

  /**
    `dust_ctr`: check the arguments in the source's order and, when they
    pass, create the device. `blksz` and `offset` are the parsed third and
    second arguments (`None` when they do not parse); `allocOk` and
    `deviceOk` stand for the context allocation and the device lookup.
   */
  method DustCtr(argc: nat, blksz: Option<nat>, offset: Option<u64>, tiLen: nat,
                 allocOk: bool, deviceOk: bool) returns (r: int, dd: DustDevice?)
    ensures CheckCtr(argc, blksz, offset, tiLen, allocOk, deviceOk).Err? ==>
      dd == null && r == CtrErrno(CheckCtr(argc, blksz, offset, tiLen, allocOk, deviceOk).error)
    ensures CheckCtr(argc, blksz, offset, tiLen, allocOk, deviceOk).Ok? ==>
      && r == 0 && dd != null && fresh(dd) && dd.Valid() && dd.State() == Initial()
      && dd.Geom() == CheckCtr(argc, blksz, offset, tiLen, allocOk, deviceOk).value
  {
    if argc != 3 {
      return -EINVAL, null;
    }
    if blksz.None? || blksz.value == 0 {
      return -EINVAL, null;
    }
    if blksz.value < 512 {
      return -EINVAL, null;
    }
    if !IsPowerOf2(blksz.value) {
      return -EINVAL, null;
    }
    var maxBlockSectors := Min(tiLen, DUST_MAX_BLKSZ_SECTORS);
    if blksz.value / SECTOR_SIZE > maxBlockSectors {
      return -EINVAL, null;
    }
    var sectPerBlock := blksz.value / SECTOR_SIZE;
    if offset.None? {
      return -EINVAL, null;
    }
    if !allocOk {
      return -ENOMEM, null;
    }
    if !deviceOk {
      return -EINVAL, null;
    }
    SectorsPerBlockIsPowerOf2(blksz.value);
    dd := new DustDevice(Geometry(blksz.value, sectPerBlock, Ffs(sectPerBlock), offset.value));
    r := 0;
  }
}
