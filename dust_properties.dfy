/**
  Properties of the dust target that relate several operations: the
  write-fail countdown and self-heal, permanent write failures, round trips
  on the lists, the behaviour of the two counters as the source writes
  them, and the facts about message dispatch.
 */
module DustProperties {
  import opened KernelTypes
  import opened DustSpec
  import opened BadBlockTree

  // ---------------------------------------------------------------------
  // Repeated writes to one block

  /** The verdicts of `n` successive `__dust_map_write` calls on block `blk`, and the state after them. */
  function WriteRepeatedly(s: DustState, blk: nat, n: nat): (seq<MapResult>, DustState)
    decreases n
  {
    if n == 0 then ([], s)
    else
      var o := MapWriteLocked(s, blk);
      var rest := WriteRepeatedly(o.state, blk, n - 1);
      ([o.verdict] + rest.0, rest.1)
  }

  function Kills(n: nat): seq<MapResult>
  {
    seq(n, _ => Kill)
  }

  /**
    A read-list entry with write-fail count `n`, while `fail_read_on_bb` is
    set and the write list does not catch the block first, makes the next
    `n` writes fail; the write after them erases the entry and passes, and
    so does every later one. Reads of the block pass from then on.
   */
  lemma CountdownThenHeal(s: DustState, blk: nat)
    requires s.failReadOnBb && blk in s.readList
    requires !(s.failWriteOnBb && blk in s.writeList)
    ensures var after := WriteRepeatedly(s, blk, s.readList[blk] as nat + 2);
      && after.0 == Kills(s.readList[blk]) + [Remapped, Remapped]
      && after.1.readList == s.readList - {blk}
      && after.1.countRead == Dec64(s.countRead)
      && after.1.writeList == s.writeList && after.1.countWrite == s.countWrite && SameFlags(after.1, s)
      && MapReadLocked(after.1, blk) == Remapped
    ensures WriteRepeatedly(s, blk, s.readList[blk] as nat).1 == s.(readList := s.readList[blk := 0])
  {
    var n: nat := s.readList[blk];
    var counted := s.(readList := s.readList[blk := 0]);
    CountdownKeepsEntry(s, blk);
    HealThenPass(counted, blk);
    WriteSplit(s, blk, n, 2);
    assert counted.readList - {blk} == s.readList - {blk};
  }

  /** A read-list entry at count 0: the next write erases it and passes, and so does the one after. */
  lemma HealThenPass(s: DustState, blk: nat)
    requires s.failReadOnBb && blk in s.readList && s.readList[blk] == 0
    requires !(s.failWriteOnBb && blk in s.writeList)
    ensures WriteRepeatedly(s, blk, 2) ==
      ([Remapped, Remapped], s.(readList := s.readList - {blk}, countRead := Dec64(s.countRead)))
  {
    var healed := s.(readList := s.readList - {blk}, countRead := Dec64(s.countRead));
    assert MapWriteLocked(s, blk) == IoOutcome(Remapped, healed);
    assert MapWriteLocked(healed, blk) == IoOutcome(Remapped, healed);
    var w1 := WriteRepeatedly(healed, blk, 1);
    assert w1 == ([Remapped] + WriteRepeatedly(healed, blk, 0).0, healed);
    assert [Remapped] + [] == [Remapped];
    assert w1 == ([Remapped], healed);
    assert WriteRepeatedly(s, blk, 2) == ([Remapped] + w1.0, w1.1);
    assert [Remapped] + [Remapped] == [Remapped, Remapped];
  }

  /**
    The `n` failing writes only count the entry down: after them it is
    still on the read list with count 0, and nothing else has changed.
   */
  lemma {:induction false} CountdownKeepsEntry(s: DustState, blk: nat)
    requires s.failReadOnBb && blk in s.readList
    requires !(s.failWriteOnBb && blk in s.writeList)
    ensures WriteRepeatedly(s, blk, s.readList[blk] as nat) ==
      (Kills(s.readList[blk]), s.(readList := s.readList[blk := 0]))
    decreases s.readList[blk]
  {
    var n: nat := s.readList[blk];
    if n == 0 {
      assert s.readList[blk := 0] == s.readList;
      assert Kills(0) == [];
    } else {
      var s1 := s.(readList := s.readList[blk := n - 1]);
      assert MapWriteLocked(s, blk) == IoOutcome(Kill, s1);
      CountdownKeepsEntry(s1, blk);
      assert WriteRepeatedly(s, blk, n) == ([Kill] + Kills(n - 1), WriteRepeatedly(s1, blk, n - 1).1);
      assert [Kill] + Kills(n - 1) == Kills(n);
      assert s1.readList[blk := 0] == s.readList[blk := 0];
    }
  }

  /** The example of a write-fail count of 2: kill, kill, pass (entry erased), pass. */
  lemma CountdownFromTwo(s: DustState, blk: nat)
    requires s.failReadOnBb && blk in s.readList && s.readList[blk] == 2
    requires !(s.failWriteOnBb && blk in s.writeList)
    ensures WriteRepeatedly(s, blk, 4).0 == [Kill, Kill, Remapped, Remapped]
    ensures WriteRepeatedly(s, blk, 2).1.readList == s.readList[blk := 0]
    ensures WriteRepeatedly(s, blk, 3).1.readList == s.readList - {blk}
    ensures blk !in WriteRepeatedly(s, blk, 4).1.readList
  {
    CountdownThenHeal(s, blk);
    assert Kills(2) == [Kill, Kill];
    WriteSplit(s, blk, 2, 1);
  }

  /** `m + n` writes are `m` writes followed by `n` more: the verdicts concatenate and the states chain. */
  lemma {:induction false} WriteSplit(s: DustState, blk: nat, m: nat, n: nat)
    ensures var first := WriteRepeatedly(s, blk, m);
      var second := WriteRepeatedly(first.1, blk, n);
      WriteRepeatedly(s, blk, m + n) == (first.0 + second.0, second.1)
    decreases m
  {
    if m > 0 {
      var o := MapWriteLocked(s, blk);
      WriteSplit(o.state, blk, m - 1, n);
      var first := WriteRepeatedly(o.state, blk, m - 1);
      var second := WriteRepeatedly(first.1, blk, n);
      assert [o.verdict] + (first.0 + second.0) == ([o.verdict] + first.0) + second.0;
    } else {
      assert [] + WriteRepeatedly(s, blk, n).0 == WriteRepeatedly(s, blk, n).0;
    }
  }

  /**
    A block on the write list with `fail_write_on_bb` set fails every write,
    and the writes change nothing: not even a read-list entry for the same
    block is counted down.
   */
  lemma {:induction false} WriteListHitIsPermanent(s: DustState, blk: nat, n: nat)
    requires s.failWriteOnBb && blk in s.writeList
    ensures WriteRepeatedly(s, blk, n) == (Kills(n), s)
  {
    if n > 0 {
      WriteListHitIsPermanent(s, blk, n - 1);
      assert MapWriteLocked(s, blk) == IoOutcome(Kill, s);
      assert [Kill] + Kills(n - 1) == Kills(n);
    } else {
      assert Kills(0) == [];
    }
  }

  // ---------------------------------------------------------------------
  // Round trips on the lists

  /** Adding a block to the read list and removing it again restores the state exactly, counter included. */
  lemma ReadAddRemoveRoundTrip(s: DustState, block: nat, wrFailCnt: u8)
    requires block !in s.readList
    ensures AddBlock(s, block, wrFailCnt, Read, true).ret == 0
    ensures RemoveBlock(AddBlock(s, block, wrFailCnt, Read, true).state, block, Read) == Outcome(0, s, NoReport)
  {
    var s1 := AddBlock(s, block, wrFailCnt, Read, true).state;
    assert s1.readList - {block} == s.readList;
  }

  /** A second add of a block already on the selected list is refused and changes nothing. */
  lemma AddTwiceRefused(s: DustState, block: nat, c1: u8, c2: u8, mode: Mode)
    requires block !in List(s, mode)
    ensures var s1 := AddBlock(s, block, c1, mode, true).state;
      AddBlock(s1, block, c2, mode, true) == Outcome(-EINVAL, s1, NoReport)
  {
  }

  /** Removing a block never on the list is refused and changes nothing. */
  lemma RemoveAbsentRefused(s: DustState, block: nat, mode: Mode)
    requires block !in List(s, mode)
    ensures RemoveBlock(s, block, mode) == Outcome(-EINVAL, s, NoReport)
  {
  }

  // ---------------------------------------------------------------------
  // The counters as written

  predicate ReadCountExact(s: DustState)
  {
    s.countRead == |s.readList|
  }

  predicate WriteCountExact(s: DustState)
  {
    s.countWrite == |s.writeList|
  }

  predicate CountsExact(s: DustState)
  {
    ReadCountExact(s) && WriteCountExact(s)
  }

  lemma CardReplace(m: map<nat, u8>, k: nat, v: u8)
    requires k in m
    ensures |m[k := v]| == |m|
  {
    assert m[k := v].Keys == m.Keys;
  }

  /**
    A write request keeps the read counter equal to the read list's size:
    the self-heal erases one entry and decrements the counter once.
   */
  lemma MapWriteKeepsCountsExact(s: DustState, blk: nat)
    requires CountsExact(s)
    ensures CountsExact(MapWriteLocked(s, blk).state)
  {
    if s.failWriteOnBb && blk in s.writeList {
    } else if s.failReadOnBb && blk in s.readList && s.readList[blk] > 0 {
      CardReplace(s.readList, blk, s.readList[blk] - 1);
    } else if s.failReadOnBb && blk in s.readList {
      CardRemove(s.readList, blk);
    }
  }

  /**
    As written, a write-mode add leaves the write counter where it was and
    raises the read counter: from exact counters both become wrong.
   */
  lemma WriteAddMiscounts(s: DustState, block: nat, wrFailCnt: u8)
    requires CountsExact(s) && block !in s.writeList && |s.readList| + 1 < U64_LIMIT
    ensures var s' := AddBlock(s, block, wrFailCnt, Write, true).state;
      && s'.countWrite + 1 == |s'.writeList|
      && s'.countRead == |s'.readList| + 1
  {
    CardInsert(s.writeList, block, wrFailCnt);
  }

  /**
    The input that shows it: on a fresh device, adding block `block` to the
    write list and then clearing the write list reaches `BUG_ON(count != 0)`
    with the detached counter 0 and one entry freed.
   */
  lemma WriteAddThenClearTripsBug(block: nat)
    ensures var s1 := AddBlock(Initial(), block, 0, Write, true).state;
      ClearBadblocks(s1, Write).report == Cleared(true, true)
  {
    var s1 := AddBlock(Initial(), block, 0, Write, true).state;
    assert s1.writeList == map[block := 0];
    CardInsert(map[], block, 0);
  }

  /**
    The same add followed by removing the block wraps the write counter to
    2^64 - 1, while the read counter stays at 1 with the read list empty.
   */
  lemma WriteAddThenRemoveWraps(block: nat)
    ensures var s1 := AddBlock(Initial(), block, 0, Write, true).state;
      var s2 := RemoveBlock(s1, block, Write).state;
      && s2.writeList == map[] && s2.countWrite == U64_LIMIT - 1
      && s2.readList == map[] && s2.countRead == 1
  {
    var s1 := AddBlock(Initial(), block, 0, Write, true).state;
    assert s1.writeList - {block} == map[];
  }

  // ---------------------------------------------------------------------
  // The counters as evidently intended

  /** `dust_add_block` with the increment going to the selected list's own counter. */
  function AddBlockIntended(s: DustState, block: nat, wrFailCnt: u8, mode: Mode, allocOk: bool): (o: Outcome)
    ensures o.ret == AddBlock(s, block, wrFailCnt, mode, allocOk).ret && o.report == NoReport
    ensures o.ret != 0 ==> o.state == s
    ensures o.ret == 0 ==> List(o.state, mode) == List(s, mode)[block := wrFailCnt]
    ensures o.ret == 0 ==> Count(o.state, mode) == Inc64(Count(s, mode))
    ensures Count(o.state, Other(mode)) == Count(s, Other(mode))
    ensures List(o.state, Other(mode)) == List(s, Other(mode))
    ensures SameFlags(o.state, s)
  {
    var asWritten := AddBlock(s, block, wrFailCnt, mode, allocOk);
    if asWritten.ret != 0 then asWritten
    else
      var s' := WithList(s, mode, List(s, mode)[block := wrFailCnt]);
      Outcome(0, WithCount(s', mode, Inc64(Count(s, mode))), NoReport)
  }

  /**
    The message effects with the intended add: the same return code,
    report, lists and flags as the code as written; only the counter an
    add touches differs.
   */
  function ApplyIntended(s: DustState, c: Command, allocOk: bool): (o: Outcome)
    ensures var w := Apply(s, c, allocOk);
      && o.ret == w.ret && o.report == w.report
      && o.state.readList == w.state.readList && o.state.writeList == w.state.writeList
      && SameFlags(o.state, w.state)
    ensures !c.Add? ==> o.state == Apply(s, c, allocOk).state
    ensures c.Add? && o.ret == 0 ==>
      Count(o.state, c.mode) == Inc64(Count(s, c.mode)) && Count(o.state, Other(c.mode)) == Count(s, Other(c.mode))
  {
    if c.Add? then AddBlockIntended(s, c.block, c.wrFailCnt, c.mode, allocOk) else Apply(s, c, allocOk)
  }

  /**
    With the intended add, every message keeps both counters equal to their
    lists' sizes (as long as a list stays below 2^64 - 1 entries).
   */
  lemma IntendedKeepsCountsExact(s: DustState, c: Command, allocOk: bool)
    requires CountsExact(s) && |s.readList| + 1 < U64_LIMIT && |s.writeList| + 1 < U64_LIMIT
    ensures CountsExact(ApplyIntended(s, c, allocOk).state)
  {
    if c.Add? {
      IntendedAddKeepsCountsExact(s, c.block, c.wrFailCnt, c.mode, allocOk);
    } else if c.Remove? {
      RemoveKeepsCountsExact(s, c.block, c.mode);
    } else if c.ClearList? {
      ClearKeepsCountsExact(s, c.mode);
    } else {
      OthersKeepLists(s, c, allocOk);
    }
  }

  /** Every message other than add, remove and clear leaves both lists and both counters as they were. */
  lemma OthersKeepLists(s: DustState, c: Command, allocOk: bool)
    requires !c.Add? && !c.Remove? && !c.ClearList?
    ensures var s' := Apply(s, c, allocOk).state;
      s'.readList == s.readList && s'.writeList == s.writeList
      && s'.countRead == s.countRead && s'.countWrite == s.countWrite
  {
  }

  lemma ClearKeepsCountsExact(s: DustState, mode: Mode)
    requires CountsExact(s)
    ensures CountsExact(ClearBadblocks(s, mode).state)
  {
  }

  lemma IntendedAddKeepsCountsExact(s: DustState, block: nat, wrFailCnt: u8, mode: Mode, allocOk: bool)
    requires CountsExact(s) && |List(s, mode)| + 1 < U64_LIMIT
    ensures CountsExact(AddBlockIntended(s, block, wrFailCnt, mode, allocOk).state)
  {
    if allocOk && block !in List(s, mode) {
      CardInsert(List(s, mode), block, wrFailCnt);
    }
  }

  lemma RemoveKeepsCountsExact(s: DustState, block: nat, mode: Mode)
    requires CountsExact(s)
    ensures CountsExact(RemoveBlock(s, block, mode).state)
  {
    if block in List(s, mode) {
      CardRemove(List(s, mode), block);
    }
  }

  /** ... so with exact counters the clear never reaches its `BUG_ON`. */
  lemma ExactCountsNeverTripClear(s: DustState, mode: Mode)
    requires CountsExact(s)
    ensures !ClearBadblocks(s, mode).report.bugOn
  {
  }

  /** The input of the finding, replayed with the intended add: the clear no longer trips. */
  lemma IntendedWriteAddThenClear(block: nat)
    ensures var s1 := AddBlockIntended(Initial(), block, 0, Write, true).state;
      ClearBadblocks(s1, Write).report == Cleared(true, false)
  {
    var s1 := AddBlockIntended(Initial(), block, 0, Write, true).state;
    assert s1.writeList == map[block := 0];
    CardInsert(map[], block, 0);
  }

  // ---------------------------------------------------------------------
  // Messages

  /** "quiet" flips `quiet_mode`; sent twice it restores the state. */
  lemma QuietTwiceRestores(s: DustState, sectPerBlock: nat, t: Token, devSectors: nat, allocOk: bool)
    requires sectPerBlock >= 1 && IsWord(t, "quiet")
    ensures var o := Message(s, sectPerBlock, [t], devSectors, allocOk);
      && o == Outcome(0, s.(quietMode := !s.quietMode), NoReport)
      && Message(o.state, sectPerBlock, [t], devSectors, allocOk) == Outcome(0, s, NoReport)
  {
  }

  /** "enable read|write" sets only the named flag and returns 0. */
  lemma EnableSetsOnlyItsFlag(s: DustState, sectPerBlock: nat, t0: Token, t1: Token, mode: Mode,
                              devSectors: nat, allocOk: bool)
    requires sectPerBlock >= 1 && IsWord(t0, "enable") && ModeOf(t1) == Some(mode)
    ensures Message(s, sectPerBlock, [t0, t1], devSectors, allocOk) ==
      Outcome(0, if mode == Read then s.(failReadOnBb := true) else s.(failWriteOnBb := true), NoReport)
  {
    assert !IsWord(t0, "disable") by { assert Lower(t0.text[0]) == 'e'; }
  }

  /** "disable read|write" clears only the named flag and returns 0. */
  lemma DisableClearsOnlyItsFlag(s: DustState, sectPerBlock: nat, t0: Token, t1: Token, mode: Mode,
                                 devSectors: nat, allocOk: bool)
    requires sectPerBlock >= 1 && IsWord(t0, "disable") && ModeOf(t1) == Some(mode)
    ensures Message(s, sectPerBlock, [t0, t1], devSectors, allocOk) ==
      Outcome(0, if mode == Read then s.(failReadOnBb := false) else s.(failWriteOnBb := false), NoReport)
  {
    assert !IsWord(t0, "enable") by { assert Lower(t0.text[0]) == 'd'; }
  }

  /**
    The block range check: with the device `devSectors / sectPerBlock`
    blocks long, a block number equal to that is accepted and any larger
    one is refused with -EINVAL and no change, for every three-argument
    message.
   */
  lemma BlockRangeBoundary(s: DustState, sectPerBlock: nat, argv: seq<Token>, devSectors: nat, allocOk: bool)
    requires sectPerBlock >= 1 && |argv| == 3 && argv[2].number.Some?
    requires IsWord(argv[0], "addbadblock") && ModeOf(argv[1]).Some?
    ensures var last := devSectors / sectPerBlock;
      && (argv[2].number.value <= last ==>
            Message(s, sectPerBlock, argv, devSectors, allocOk) ==
            AddBlock(s, argv[2].number.value, 0, ModeOf(argv[1]).value, allocOk))
      && (argv[2].number.value > last ==>
            Message(s, sectPerBlock, argv, devSectors, allocOk) == Outcome(-EINVAL, s, NoReport))
  {
  }

  /**
    The same boundary for the four-argument add: with a write-fail count
    of at most 255, a block number up to the device size in blocks adds
    the block with that count, and a larger one is refused unchanged.
   */
  lemma BlockRangeBoundaryWithCount(s: DustState, sectPerBlock: nat, argv: seq<Token>, devSectors: nat, allocOk: bool)
    requires sectPerBlock >= 1 && |argv| == 4 && argv[2].number.Some?
    requires argv[3].number.Some? && argv[3].number.value <= 255
    requires IsWord(argv[0], "addbadblock") && ModeOf(argv[1]).Some?
    ensures var last := devSectors / sectPerBlock;
      && (argv[2].number.value <= last ==>
            Message(s, sectPerBlock, argv, devSectors, allocOk) ==
            AddBlock(s, argv[2].number.value, argv[3].number.value, ModeOf(argv[1]).value, allocOk))
      && (argv[2].number.value > last ==>
            Message(s, sectPerBlock, argv, devSectors, allocOk) == Outcome(-EINVAL, s, NoReport))
  {
  }

  /**
    "removebadblock" and "queryblock" with a mode and a block number within
    the device reach the list operation; a block number past the device is
    refused unchanged.
   */
  lemma RemoveMessageRemoves(s: DustState, sectPerBlock: nat, argv: seq<Token>, devSectors: nat, allocOk: bool)
    requires sectPerBlock >= 1 && |argv| == 3 && argv[2].number.Some?
    requires IsWord(argv[0], "removebadblock") && ModeOf(argv[1]).Some?
    ensures var last := devSectors / sectPerBlock;
      && (argv[2].number.value <= last ==>
            Message(s, sectPerBlock, argv, devSectors, allocOk) ==
            RemoveBlock(s, argv[2].number.value, ModeOf(argv[1]).value))
      && (argv[2].number.value > last ==>
            Message(s, sectPerBlock, argv, devSectors, allocOk) == Outcome(-EINVAL, s, NoReport))
  {
    assert !IsWord(argv[0], "addbadblock");
  }

  lemma QueryMessageReports(s: DustState, sectPerBlock: nat, argv: seq<Token>, devSectors: nat, allocOk: bool)
    requires sectPerBlock >= 1 && |argv| == 3 && argv[2].number.Some?
    requires IsWord(argv[0], "queryblock") && ModeOf(argv[1]).Some?
    ensures var last := devSectors / sectPerBlock;
      var o := Message(s, sectPerBlock, argv, devSectors, allocOk);
      && (argv[2].number.value <= last ==>
            o == Outcome(0, s, Presence(argv[2].number.value in List(s, ModeOf(argv[1]).value))))
      && (argv[2].number.value > last ==> o == Outcome(-EINVAL, s, NoReport))
  {
    assert !IsWord(argv[0], "addbadblock") && !IsWord(argv[0], "removebadblock");
  }

  /** "clearbadblocks read|write" empties the named list and zeroes its counter, and returns 0. */
  lemma ClearMessageClears(s: DustState, sectPerBlock: nat, t0: Token, t1: Token, mode: Mode,
                           devSectors: nat, allocOk: bool)
    requires sectPerBlock >= 1 && IsWord(t0, "clearbadblocks") && ModeOf(t1) == Some(mode)
    ensures Message(s, sectPerBlock, [t0, t1], devSectors, allocOk) == ClearBadblocks(s, mode)
  {
    assert !IsWord(t0, "enable") && !IsWord(t0, "disable");
  }

  /** "countbadblocks read|write" reports the named list's counter, `badblock_count_*`, and changes nothing. */
  lemma CountMessageReports(s: DustState, sectPerBlock: nat, t0: Token, t1: Token, mode: Mode,
                            devSectors: nat, allocOk: bool)
    requires sectPerBlock >= 1 && IsWord(t0, "countbadblocks") && ModeOf(t1) == Some(mode)
    ensures Message(s, sectPerBlock, [t0, t1], devSectors, allocOk) == Outcome(0, s, Counted(Count(s, mode)))
  {
    assert !IsWord(t0, "enable") && !IsWord(t0, "disable");
    assert !IsWord(t0, "clearbadblocks") by { assert Lower(t0.text[1]) == 'o'; }
  }

  /** A four-argument add with a write-fail count above 255 is refused before any change. */
  lemma FailCountAbove255Refused(s: DustState, sectPerBlock: nat, argv: seq<Token>, devSectors: nat, allocOk: bool)
    requires sectPerBlock >= 1 && |argv| == 4
    requires argv[3].number.Some? && argv[3].number.value > 255
    ensures Message(s, sectPerBlock, argv, devSectors, allocOk) == Outcome(-EINVAL, s, NoReport)
  {
  }

  /**
    End to end: after "enable read" and "addbadblock read 100" on a fresh
    device of at least 100 blocks, a read of a sector in block 100 is killed
    and a read of a sector in block 101 passes.
   */
  lemma ReadFailScenario(sectPerBlock: nat, shift: nat, devSectors: nat, s100: u64, s101: u64)
    requires sectPerBlock >= 1 && devSectors / sectPerBlock >= 100
    requires BlockOf(s100, shift) == 100 && BlockOf(s101, shift) == 101
    ensures var s1 := Message(Initial(), sectPerBlock,
                              [Token("enable", None), Token("read", None)], devSectors, true).state;
      var s2 := Message(s1, sectPerBlock,
                        [Token("addbadblock", None), Token("read", None), Token("100", Some(100))], devSectors, true).state;
      && MapRead(s2, shift, s100, s2.failReadOnBb) == Kill
      && MapRead(s2, shift, s101, s2.failReadOnBb) == Remapped
  {
    var enable, read, add := Token("enable", None), Token("read", None), Token("addbadblock", None);
    assert IsWord(enable, "enable") && IsWord(read, "read") && IsWord(add, "addbadblock");
    assert !IsWord(add, "quiet") && !IsWord(read, "write");
  }
}
