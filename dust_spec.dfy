/**
  The dust target's state seen as values, and one function per operation
  giving its return code and its new state. A `DustState` holds the two
  bad-block lists as maps from block number to write-fail count, the two
  64-bit counters and the three flags of `struct dust_device`.
 */
module DustSpec {
  import opened KernelTypes

  /** The `mode` argument of the list operations: `RD` (false) or `WR` (true). */
  datatype Mode = Read | Write

  /** `bio_data_dir` of a request. */
  datatype Direction = IoRead | IoWrite

  /** `DM_MAPIO_KILL` or `DM_MAPIO_REMAPPED`. */
  datatype MapResult = Kill | Remapped

  datatype DustState = DustState(
    readList: map<nat, u8>,
    writeList: map<nat, u8>,
    countRead: u64,
    countWrite: u64,
    failReadOnBb: bool,
    failWriteOnBb: bool,
    quietMode: bool)

  function Other(mode: Mode): Mode
  {
    if mode == Read then Write else Read
  }

  /** The list `mode` selects. */
  function List(s: DustState, mode: Mode): map<nat, u8>
  {
    if mode == Read then s.readList else s.writeList
  }

  /** The counter that belongs to the list `mode` selects. */
  function Count(s: DustState, mode: Mode): u64
  {
    if mode == Read then s.countRead else s.countWrite
  }

  function WithList(s: DustState, mode: Mode, m: map<nat, u8>): DustState
  {
    if mode == Read then s.(readList := m) else s.(writeList := m)
  }

  function WithCount(s: DustState, mode: Mode, c: u64): DustState
  {
    if mode == Read then s.(countRead := c) else s.(countWrite := c)
  }

  /** The three flags are the same in both states. */
  predicate SameFlags(a: DustState, b: DustState)
  {
    a.failReadOnBb == b.failReadOnBb && a.failWriteOnBb == b.failWriteOnBb && a.quietMode == b.quietMode
  }

  /** The state `dust_ctr` leaves: both lists empty, both counters 0, every flag off. */
  function Initial(): (r: DustState)
    ensures r.countRead == |r.readList| && r.countWrite == |r.writeList|
    ensures !r.failReadOnBb && !r.failWriteOnBb && !r.quietMode
  {
    DustState(map[], map[], 0, 0, false, false, false)
  }

  /** What a message reports besides its return code (the target logs it). */
  datatype Report =
    | NoReport
    | Presence(found: bool)
    | Counted(count: u64)
    | Cleared(nonEmpty: bool, bugOn: bool)

  /** Return code, new state and report of an administrative operation. */
  datatype Outcome = Outcome(ret: int, state: DustState, report: Report)

  /** Verdict and new state of a mapped request. */
  datatype IoOutcome = IoOutcome(verdict: MapResult, state: DustState)

  // ---------------------------------------------------------------------
  // Administrative operations on the lists

  /**
    `dust_add_block`. The allocation of the new record may fail
    (`allocOk` false). As written in the source, a successful add
    increments `badblock_count_read` in both modes.
   */
  function AddBlock(s: DustState, block: nat, wrFailCnt: u8, mode: Mode, allocOk: bool): (o: Outcome)
    ensures o.ret == 0 <==> allocOk && block !in List(s, mode)
    ensures !allocOk ==> o.ret == -ENOMEM && o.state == s
    ensures allocOk && block in List(s, mode) ==> o.ret == -EINVAL && o.state == s
    ensures o.ret == 0 ==> List(o.state, mode) == List(s, mode)[block := wrFailCnt]
    ensures o.ret == 0 ==> o.state.countRead == Inc64(s.countRead)
    ensures List(o.state, Other(mode)) == List(s, Other(mode))
    ensures o.state.countWrite == s.countWrite
    ensures SameFlags(o.state, s) && o.report == NoReport
  {
    if !allocOk then
      Outcome(-ENOMEM, s, NoReport)
    else if block in List(s, mode) then
      Outcome(-EINVAL, s, NoReport)
    else
      var s' := WithList(s, mode, List(s, mode)[block := wrFailCnt]);
      Outcome(0, s'.(countRead := Inc64(s.countRead)), NoReport)
  }

  /** `dust_remove_block`: erase the entry and decrement the selected list's own counter. */
  function RemoveBlock(s: DustState, block: nat, mode: Mode): (o: Outcome)
    ensures o.ret == 0 <==> block in List(s, mode)
    ensures o.ret != 0 ==> o.ret == -EINVAL && o.state == s
    ensures o.ret == 0 ==> List(o.state, mode) == List(s, mode) - {block}
    ensures o.ret == 0 ==> Count(o.state, mode) == Dec64(Count(s, mode))
    ensures List(o.state, Other(mode)) == List(s, Other(mode))
    ensures Count(o.state, Other(mode)) == Count(s, Other(mode))
    ensures SameFlags(o.state, s) && o.report == NoReport
  {
    if block !in List(s, mode) then
      Outcome(-EINVAL, s, NoReport)
    else
      var s' := WithList(s, mode, List(s, mode) - {block});
      Outcome(0, WithCount(s', mode, Dec64(Count(s, mode))), NoReport)
  }

  /** `dust_query_block`: always returns 0 and reports whether the block is listed. */
  function QueryBlock(s: DustState, block: nat, mode: Mode): (o: Outcome)
    ensures o.ret == 0 && o.state == s
    ensures o.report.Presence? && (o.report.found <==> block in List(s, mode))
  {
    Outcome(0, s, Presence(block in List(s, mode)))
  }

  /**
    `dust_clear_badblocks`: the selected list and its counter are detached
    and reset, then `__dust_clear_badblocks` frees the detached entries.
    The report says whether any entry was found and whether its
    `BUG_ON(count != 0)` fires: the detached counter was not the number of
    entries freed.
   */
  function ClearBadblocks(s: DustState, mode: Mode): (o: Outcome)
    ensures o.ret == 0
    ensures List(o.state, mode) == map[] && Count(o.state, mode) == 0
    ensures List(o.state, Other(mode)) == List(s, Other(mode))
    ensures Count(o.state, Other(mode)) == Count(s, Other(mode))
    ensures SameFlags(o.state, s)
    ensures o.report.Cleared? && (o.report.nonEmpty <==> |List(s, mode)| > 0)
    ensures o.report.Cleared? && (o.report.bugOn <==> Count(s, mode) != |List(s, mode)| % U64_LIMIT)
  {
    var detached, count := List(s, mode), Count(s, mode);
    var s' := WithCount(WithList(s, mode, map[]), mode, 0);
    Outcome(0, s', Cleared(detached != map[], count != |detached| % U64_LIMIT))
  }

  // ---------------------------------------------------------------------
  // The per-request decision

  /** `thisblock >>= sect_per_block_shift`: the block a sector lies in, one halving per bit shifted. */
  function BlockOf(sector: nat, shift: nat): (r: nat)
    ensures r <= sector
  {
    if shift == 0 then sector else BlockOf(sector / 2, shift - 1)
  }

  /** Shifting right by `shift` bits is dividing by 2^shift: the sector's block when blocks are 2^shift sectors. */
  lemma {:induction false} BlockOfIsQuotient(sector: nat, shift: nat)
    ensures BlockOf(sector, shift) == sector / Pow2(shift)
    ensures BlockOf(sector, shift) * Pow2(shift) <= sector < (BlockOf(sector, shift) + 1) * Pow2(shift)
  {
    if shift > 0 {
      BlockOfIsQuotient(sector / 2, shift - 1);
      HalveThenDivide(sector, Pow2(shift - 1));
    }
    QuotientBounds(sector, Pow2(shift));
  }

  /** Halving and then dividing by `d` is dividing by `2 * d`. */
  lemma HalveThenDivide(a: nat, d: nat)
    requires d >= 1
    ensures a / 2 / d == a / (2 * d)
  {
    var q, r := a / 2 / d, a / 2 % d;
    assert a / 2 == q * d + r;
    assert a == q * (2 * d) + (2 * r + a % 2);
    QuotientUnique(a, 2 * d, q, 2 * r + a % 2);
  }

  /** The quotient is the one `q` with `q * d <= a < (q + 1) * d`. */
  lemma QuotientUnique(a: nat, d: nat, q: nat, r: nat)
    requires d >= 1 && a == q * d + r && r < d
    ensures a / d == q
  {
    var q0, r0 := a / d, a % d;
    if q > q0 {
      MulStep(q0, q, d);
    } else if q < q0 {
      MulStep(q, q0, d);
    }
  }

  /** A larger factor gives a product larger by at least `d`. */
  lemma MulStep(x: nat, y: nat, d: nat)
    requires x < y
    ensures x * d + d <= y * d
  {
    var k := y - x - 1;
    assert y * d == x * d + k * d + d;
  }

  lemma QuotientBounds(a: nat, d: nat)
    requires d >= 1
    ensures (a / d) * d <= a < (a / d + 1) * d
  {
  }

  /** `__dust_map_read`: kill a request to a block on the read list. */
  function MapReadLocked(s: DustState, blk: nat): (r: MapResult)
    ensures r == Kill <==> blk in s.readList
  {
    if blk in s.readList then Kill else Remapped
  }

  /** `dust_map_read`: with `fail_read_on_bb` off no list is consulted. */
  function MapRead(s: DustState, shift: nat, sector: u64, failReadOnBb: bool): (r: MapResult)
    ensures !failReadOnBb ==> r == Remapped
    ensures failReadOnBb ==> (r == Kill <==> BlockOf(sector, shift) in s.readList)
  {
    if failReadOnBb then MapReadLocked(s, BlockOf(sector, shift)) else Remapped
  }

  /**
    `__dust_map_write`. A block on the write list with `fail_write_on_bb` set
    is killed at once, with no change (the read list is not consulted).
    Otherwise, with `fail_read_on_bb` set, a read-list entry with a positive
    write-fail count has it decremented and the request is killed; one
    with count 0 is erased (its counter decremented) and the request passes.
   */
  function MapWriteLocked(s: DustState, blk: nat): (o: IoOutcome)
    ensures s.failWriteOnBb && blk in s.writeList ==> o == IoOutcome(Kill, s)
    ensures o.verdict == Kill <==>
      || (s.failWriteOnBb && blk in s.writeList)
      || (s.failReadOnBb && blk in s.readList && s.readList[blk] > 0)
    ensures o.state.writeList == s.writeList && o.state.countWrite == s.countWrite
    ensures SameFlags(o.state, s)
    ensures o.state.readList.Keys <= s.readList.Keys
    ensures forall k :: k in o.state.readList && k != blk ==> o.state.readList[k] == s.readList[k]
    ensures o.state.readList.Keys == s.readList.Keys ==> o.state.countRead == s.countRead
    ensures !(s.failWriteOnBb && blk in s.writeList) && !(s.failReadOnBb && blk in s.readList) ==>
      o == IoOutcome(Remapped, s)
    ensures !(s.failWriteOnBb && blk in s.writeList) && s.failReadOnBb && blk in s.readList && s.readList[blk] > 0 ==>
      o == IoOutcome(Kill, s.(readList := s.readList[blk := s.readList[blk] - 1]))
    ensures !(s.failWriteOnBb && blk in s.writeList) && s.failReadOnBb && blk in s.readList && s.readList[blk] == 0 ==>
      o == IoOutcome(Remapped, s.(readList := s.readList - {blk}, countRead := Dec64(s.countRead)))
  {
    if s.failWriteOnBb && blk in s.writeList then
      IoOutcome(Kill, s)
    else if s.failReadOnBb && blk in s.readList && s.readList[blk] > 0 then
      IoOutcome(Kill, s.(readList := s.readList[blk := s.readList[blk] - 1]))
    else if s.failReadOnBb && blk in s.readList then
      IoOutcome(Remapped, s.(readList := s.readList - {blk}, countRead := Dec64(s.countRead)))
    else
      IoOutcome(Remapped, s)
  }

  /** `dust_map_write`: with both flags off no list is consulted. */
  function MapWrite(s: DustState, shift: nat, sector: u64, failReadOnBb: bool, failWriteOnBb: bool): (o: IoOutcome)
    ensures !failReadOnBb && !failWriteOnBb ==> o == IoOutcome(Remapped, s)
    ensures failReadOnBb || failWriteOnBb ==> o == MapWriteLocked(s, BlockOf(sector, shift))
    ensures o.state.writeList == s.writeList && SameFlags(o.state, s)
  {
    if failWriteOnBb || failReadOnBb then MapWriteLocked(s, BlockOf(sector, shift))
    else IoOutcome(Remapped, s)
  }

  /**
    `dust_map`: the request's sector is moved by the device offset `start`
    (a 64-bit sum) and the target's own flags choose the path.
   */
  function Map(s: DustState, shift: nat, start: u64, dir: Direction, offset: u64): (o: IoOutcome)
    ensures dir == IoRead ==>
      o == IoOutcome(MapRead(s, shift, (start + offset) % U64_LIMIT, s.failReadOnBb), s)
    ensures dir == IoWrite ==>
      o == MapWrite(s, shift, (start + offset) % U64_LIMIT, s.failReadOnBb, s.failWriteOnBb)
    ensures o.state.writeList == s.writeList && SameFlags(o.state, s)
  {
    var sector: u64 := (start + offset) % U64_LIMIT;
    if dir == IoRead then IoOutcome(MapRead(s, shift, sector, s.failReadOnBb), s)
    else MapWrite(s, shift, sector, s.failReadOnBb, s.failWriteOnBb)
  }

  // ---------------------------------------------------------------------
  // Constructor validation

  const SECTOR_SIZE: nat := 512
  const DUST_MAX_BLKSZ_SECTORS: nat := 2097152

  /** `is_power_of_2`. */
  predicate IsPowerOf2(n: nat)
  {
    n == 1 || (n >= 2 && n % 2 == 0 && IsPowerOf2(n / 2))
  }

  /** Every power of 2 passes the check. */
  lemma {:induction false} Pow2IsPowerOf2(k: nat)
    ensures IsPowerOf2(Pow2(k))
  {
    if k > 0 {
      Pow2IsPowerOf2(k - 1);
      assert Pow2(k) / 2 == Pow2(k - 1);
    }
  }

  /** `is_power_of_2` accepts exactly the numbers 2^k. */
  lemma IsPowerOf2Exactly(n: nat)
    ensures IsPowerOf2(n) <==> exists k: nat :: Pow2(k) == n
  {
    if IsPowerOf2(n) {
      assert Pow2(Ffs(n)) == n;
    }
    if exists k: nat :: Pow2(k) == n {
      var k: nat :| Pow2(k) == n;
      Pow2IsPowerOf2(k);
    }
  }

  /** `__ffs`: the index of the lowest set bit; for a power of 2, its logarithm. */
  function Ffs(n: nat): (r: nat)
    requires n > 0
    ensures IsPowerOf2(n) ==> Pow2(r) == n
  {
    if n % 2 == 1 then 0 else 1 + Ffs(n / 2)
  }

  function Min(a: nat, b: nat): nat
  {
    if a <= b then a else b
  }

  /** What the constructor computes from its arguments and keeps. */
  datatype Geometry = Geometry(blksz: nat, sectPerBlock: nat, sectPerBlockShift: nat, start: u64)

  predicate ValidGeometry(g: Geometry)
  {
    g.sectPerBlock >= 1 && Pow2(g.sectPerBlockShift) == g.sectPerBlock
  }

  /** The reasons `dust_ctr` refuses its arguments, in the order it checks them. */
  datatype CtrError =
    | BadArgCount
    | BadBlockSize
    | BlockSizeTooSmall
    | BlockSizeNotPowerOf2
    | BlockSizeTooLarge
    | BadOffset
    | NoContext
    | DeviceLookupFailed

  /** The error number `dust_ctr` returns for each refusal. */
  function CtrErrno(e: CtrError): (r: int)
    ensures r == -ENOMEM <==> e == NoContext
    ensures r == -ENOMEM || r == -EINVAL
  {
    if e == NoContext then -ENOMEM else -EINVAL
  }

  /**
    The checks of `dust_ctr`. `blksz` is the parsed block size (`None` when
    it does not parse), `offset` the parsed start sector, `tiLen` the
    target length in sectors; `allocOk` and `deviceOk` stand for the
    allocation of the context and the lookup of the underlying device.
   */
  function CheckCtr(argc: nat, blksz: Option<nat>, offset: Option<u64>, tiLen: nat,
                    allocOk: bool, deviceOk: bool): (r: Result<Geometry, CtrError>)
    ensures r.Ok? ==> argc == 3 && blksz.Some? && offset.Some? && allocOk && deviceOk
    ensures r.Ok? ==>
      && 512 <= blksz.value && IsPowerOf2(blksz.value)
      && blksz.value / SECTOR_SIZE <= tiLen && blksz.value / SECTOR_SIZE <= DUST_MAX_BLKSZ_SECTORS
    ensures r.Ok? ==>
      && r.value.blksz == blksz.value && r.value.start == offset.value
      && r.value.sectPerBlock == blksz.value / SECTOR_SIZE
      && ValidGeometry(r.value)
    ensures
      (&& argc == 3 && blksz.Some? && offset.Some? && allocOk && deviceOk
       && 512 <= blksz.value && IsPowerOf2(blksz.value)
       && blksz.value / SECTOR_SIZE <= Min(tiLen, DUST_MAX_BLKSZ_SECTORS))
      ==> r.Ok?
    ensures
      (r.Err? && CtrErrno(r.error) == -ENOMEM) <==>
      (&& argc == 3 && blksz.Some? && 512 <= blksz.value && IsPowerOf2(blksz.value)
       && blksz.value / SECTOR_SIZE <= Min(tiLen, DUST_MAX_BLKSZ_SECTORS)
       && offset.Some? && !allocOk)
    ensures r.Err? && r.error == DeviceLookupFailed <==>
      (&& argc == 3 && blksz.Some? && 512 <= blksz.value && IsPowerOf2(blksz.value)
       && blksz.value / SECTOR_SIZE <= Min(tiLen, DUST_MAX_BLKSZ_SECTORS)
       && offset.Some? && allocOk && !deviceOk)
    ensures r.Err? && r.error == BadArgCount <==> argc != 3
  {
    if argc != 3 then Err(BadArgCount)
    else if blksz.None? || blksz.value == 0 then Err(BadBlockSize)
    else if blksz.value < 512 then Err(BlockSizeTooSmall)
    else if !IsPowerOf2(blksz.value) then Err(BlockSizeNotPowerOf2)
    else if blksz.value / SECTOR_SIZE > Min(tiLen, DUST_MAX_BLKSZ_SECTORS) then Err(BlockSizeTooLarge)
    else if offset.None? then Err(BadOffset)
    else if !allocOk then Err(NoContext)
    else if !deviceOk then Err(DeviceLookupFailed)
    else
      var spb := blksz.value / SECTOR_SIZE;
      SectorsPerBlockIsPowerOf2(blksz.value);
      Ok(Geometry(blksz.value, spb, Ffs(spb), offset.value))
  }

  /** A power-of-2 block size of at least one sector spans a power-of-2 number of sectors. */
  lemma SectorsPerBlockIsPowerOf2(b: nat)
    requires IsPowerOf2(b) && b >= 512
    ensures IsPowerOf2(b / 512) && b / 512 >= 1
  {
    assert IsPowerOf2(b / 2) && b / 2 >= 256;
    assert b / 4 == b / 2 / 2;
    assert IsPowerOf2(b / 4) && b / 4 >= 128;
    assert b / 8 == b / 4 / 2;
    assert IsPowerOf2(b / 8) && b / 8 >= 64;
    assert b / 16 == b / 8 / 2;
    assert IsPowerOf2(b / 16) && b / 16 >= 32;
    assert b / 32 == b / 16 / 2;
    assert IsPowerOf2(b / 32) && b / 32 >= 16;
    assert b / 64 == b / 32 / 2;
    assert IsPowerOf2(b / 64) && b / 64 >= 8;
    assert b / 128 == b / 64 / 2;
    assert IsPowerOf2(b / 128) && b / 128 >= 4;
    assert b / 256 == b / 128 / 2;
    assert IsPowerOf2(b / 256) && b / 256 >= 2;
    assert b / 512 == b / 256 / 2;
  }

  // ---------------------------------------------------------------------
  // Messages

  /** One message argument: its text and, when it reads as an unsigned decimal number, that number. */
  datatype Token = Token(text: string, number: Option<nat>)

  /** A message after dispatch: what `dust_message` does with it. */
  datatype Command =
    | Quiet
    | Enable(mode: Mode)
    | Disable(mode: Mode)
    | ClearList(mode: Mode)
    | CountList(mode: Mode)
    | Add(mode: Mode, block: nat, wrFailCnt: u8)
    | Remove(mode: Mode, block: nat)
    | Query(mode: Mode, block: nat)
    | Rejected

  /** ASCII lower case, as `strcasecmp` compares. */
  function Lower(c: char): char
  {
    if 'A' <= c <= 'Z' then (c as int + 32) as char else c
  }

  /** `strcasecmp(t.text, w) == 0`. */
  predicate IsWord(t: Token, w: string)
  {
    |t.text| == |w| && forall i :: 0 <= i < |w| ==> Lower(t.text[i]) == Lower(w[i])
  }

  /** A string with every letter lowered. */
  function Lowered(w: string): (r: string)
    ensures |r| == |w| && forall i :: 0 <= i < |w| ==> r[i] == Lower(w[i])
  {
    if w == [] then [] else [Lower(w[0])] + Lowered(w[1..])
  }

  /** The comparison ignores case: a token is a word exactly when both read the same once lowered. */
  lemma IsWordIgnoresCase(t: Token, w: string)
    ensures IsWord(t, w) <==> Lowered(t.text) == Lowered(w)
  {
    if Lowered(t.text) == Lowered(w) {
      assert |t.text| == |w|;
      forall i | 0 <= i < |w|
        ensures Lower(t.text[i]) == Lower(w[i])
      {
        assert Lowered(t.text)[i] == Lowered(w)[i];
      }
    }
  }

  /** The list a message's second word names: "read" or "write", in any case. */
  function ModeOf(t: Token): (r: Option<Mode>)
    ensures r == Some(Read) <==> IsWord(t, "read")
    ensures r == Some(Write) <==> IsWord(t, "write")
    ensures r == None <==> !IsWord(t, "read") && !IsWord(t, "write")
  {
    if IsWord(t, "read") then Some(Read)
    else if IsWord(t, "write") then Some(Write)
    else None
  }

  /**
    The dispatch of `dust_message` on argument count and command word,
    with its checks: the block number must not exceed `lastBlock` (the
    device size in blocks) and an explicit write-fail count must not
    exceed 255. Every message it does not accept is `Rejected`.
   */
  function ParseMessage(argv: seq<Token>, lastBlock: nat): (c: Command)
    ensures (c.Add? || c.Remove? || c.Query?) ==> c.block <= lastBlock
    ensures (c.Add? || c.Remove? || c.Query?) ==> |argv| >= 3 && argv[2].number == Some(c.block)
    ensures c.Add? && |argv| == 3 ==> c.wrFailCnt == 0
    ensures c.Add? && |argv| == 4 ==> argv[3].number == Some(c.wrFailCnt)
    ensures c == Quiet ==> |argv| == 1
    ensures (c.Enable? || c.Disable? || c.ClearList? || c.CountList?) ==> |argv| == 2
    ensures (c.Remove? || c.Query?) ==> |argv| == 3
    ensures c.Add? ==> |argv| == 3 || |argv| == 4
    ensures c.Quiet? ==> IsWord(argv[0], "quiet")
    ensures c.Enable? ==> IsWord(argv[0], "enable") && ModeOf(argv[1]) == Some(c.mode)
    ensures c.Disable? ==> IsWord(argv[0], "disable") && ModeOf(argv[1]) == Some(c.mode)
    ensures c.ClearList? ==> IsWord(argv[0], "clearbadblocks") && ModeOf(argv[1]) == Some(c.mode)
    ensures c.CountList? ==> IsWord(argv[0], "countbadblocks") && ModeOf(argv[1]) == Some(c.mode)
    ensures c.Add? ==> IsWord(argv[0], "addbadblock") && ModeOf(argv[1]) == Some(c.mode)
    ensures c.Remove? ==> IsWord(argv[0], "removebadblock") && ModeOf(argv[1]) == Some(c.mode)
    ensures c.Query? ==> IsWord(argv[0], "queryblock") && ModeOf(argv[1]) == Some(c.mode)
  {
    if |argv| == 1 then
      if IsWord(argv[0], "quiet") then Quiet else Rejected
    else if |argv| == 2 then
      var m := ModeOf(argv[1]);
      if m.None? then Rejected
      else if IsWord(argv[0], "enable") then Enable(m.value)
      else if IsWord(argv[0], "disable") then Disable(m.value)
      else if IsWord(argv[0], "clearbadblocks") then ClearList(m.value)
      else if IsWord(argv[0], "countbadblocks") then CountList(m.value)
      else Rejected
    else if |argv| == 3 then
      if argv[2].number.None? || argv[2].number.value > lastBlock then Rejected
      else
        var block, m := argv[2].number.value, ModeOf(argv[1]);
        if m.None? then Rejected
        else if IsWord(argv[0], "addbadblock") then Add(m.value, block, 0)
        else if IsWord(argv[0], "removebadblock") then Remove(m.value, block)
        else if IsWord(argv[0], "queryblock") then Query(m.value, block)
        else Rejected
    else if |argv| == 4 then
      if argv[2].number.None? || argv[3].number.None? || argv[3].number.value > 255 then Rejected
      else if argv[2].number.value > lastBlock then Rejected
      else
        var m := ModeOf(argv[1]);
        if m.Some? && IsWord(argv[0], "addbadblock") then
          Add(m.value, argv[2].number.value, argv[3].number.value)
        else Rejected
    else
      Rejected
  }

  /** The effect of a dispatched message on the state. */
  function Apply(s: DustState, c: Command, allocOk: bool): (o: Outcome)
    ensures c == Rejected ==> o == Outcome(-EINVAL, s, NoReport)
    ensures !c.Add? && !c.Remove? && o.ret != 0 ==> o.state == s
    ensures c.Quiet? ==> o.ret == 0 && o.state == s.(quietMode := !s.quietMode)
    ensures c.Enable? || c.Disable? ==>
      && o.ret == 0 && o.state.readList == s.readList && o.state.writeList == s.writeList
      && o.state.countRead == s.countRead && o.state.countWrite == s.countWrite
      && o.state.quietMode == s.quietMode
      && (c.mode == Read ==> o.state.failReadOnBb == c.Enable? && o.state.failWriteOnBb == s.failWriteOnBb)
      && (c.mode == Write ==> o.state.failWriteOnBb == c.Enable? && o.state.failReadOnBb == s.failReadOnBb)
    ensures c.ClearList? ==>
      && o.ret == 0 && List(o.state, c.mode) == map[] && Count(o.state, c.mode) == 0
      && List(o.state, Other(c.mode)) == List(s, Other(c.mode))
      && o.report.Cleared? && (o.report.nonEmpty <==> |List(s, c.mode)| > 0)
    ensures c.CountList? ==> o.ret == 0 && o.state == s && o.report == Counted(Count(s, c.mode))
    ensures c.Query? ==> o.ret == 0 && o.state == s && o.report == Presence(c.block in List(s, c.mode))
    ensures c.Add? ==> (o.ret == 0 <==> allocOk && c.block !in List(s, c.mode))
    ensures c.Add? && o.ret == 0 ==> List(o.state, c.mode) == List(s, c.mode)[c.block := c.wrFailCnt]
    ensures c.Remove? ==> (o.ret == 0 <==> c.block in List(s, c.mode))
    ensures c.Remove? && o.ret == 0 ==> List(o.state, c.mode) == List(s, c.mode) - {c.block}
  {
    match c
    case Quiet => Outcome(0, s.(quietMode := !s.quietMode), NoReport)
    case Enable(Read) => Outcome(0, s.(failReadOnBb := true), NoReport)
    case Enable(Write) => Outcome(0, s.(failWriteOnBb := true), NoReport)
    case Disable(Read) => Outcome(0, s.(failReadOnBb := false), NoReport)
    case Disable(Write) => Outcome(0, s.(failWriteOnBb := false), NoReport)
    case ClearList(m) => ClearBadblocks(s, m)
    case CountList(m) => Outcome(0, s, Counted(Count(s, m)))
    case Add(m, b, n) => AddBlock(s, b, n, m, allocOk)
    case Remove(m, b) => RemoveBlock(s, b, m)
    case Query(m, b) => QueryBlock(s, b, m)
    case Rejected => Outcome(-EINVAL, s, NoReport)
  }

  /**
    `dust_message` on a device of `devSectors` sectors: the device size in
    blocks (`sector_div(size, sect_per_block)`) bounds the block numbers.
   */
  function Message(s: DustState, sectPerBlock: nat, argv: seq<Token>, devSectors: nat, allocOk: bool): (o: Outcome)
    requires sectPerBlock >= 1
    ensures o.ret == 0 || o.ret == -EINVAL || o.ret == -ENOMEM
  {
    Apply(s, ParseMessage(argv, devSectors / sectPerBlock), allocOk)
  }
}
