# dm-dust in Dafny

A model of the device-mapper "dust" target. Dust is a pass-through block
device that fails I/O on chosen blocks. The model covers four parts:

- **The two bad-block lists.** These are `badblocklist_read` and
  `badblocklist_write`: trees of `struct badblock` keyed by block number,
  and each entry carries an 8-bit write-fail count.
- **The administrative operations.** Add, remove, query and the two-phase
  clear, with the unsigned 64-bit counters `badblock_count_read` and
  `badblock_count_write`.
- **The per-request decision.** `dust_map`, `dust_map_read` /
  `__dust_map_read` and `dust_map_write` / `__dust_map_write`. A request
  is either killed (`DM_MAPIO_KILL`) or passed on (`DM_MAPIO_REMAPPED`).
  Each failure applies only while its flag is set, and both flags are off
  when the device is created.
  - While `fail_write_on_bb` is set, a block on the write list fails every
    write.
  - While `fail_read_on_bb` is set, a block on the read list fails reads.
    Writes to it also fail while its write-fail count is above 0, and each
    one counts it down by 1. Once the count is 0, the next write erases
    the entry and passes.
  - With a flag off, requests pass and the lists are left alone.
- **The validation in `dust_ctr` and the dispatch in `dust_message`.**

Files:

- `kernel_types.dfy` (`KernelTypes`):
  - `unsigned long long` and `unsigned char` as subset types;
  - wrapping `++` and `--`;
  - error numbers;
  - `Option` and `Result`.
- `bad_block_tree.dfy` (`BadBlockTree`): one list as a binary-search-tree
  datatype, whose meaning is the ghost map `Contents`.
  - `dust_rb_search` is the same `while` descent as in C.
  - `dust_rb_insert` keeps its `while` descent only to find a duplicate key.
    The new leaf is then placed by `Link`, a recursive descent on the tree
    value. The C `link`/`parent` pointer pair has no counterpart.
  - The effects of `rb_link_node`, `rb_erase` and `rb_first` are functions
    on the tree.
  - `__dust_clear_badblocks` is a loop that erases the first node and
    decrements the 64-bit count.
- `dust_spec.dfy` (`DustSpec`): the device's state as a value (`DustState`:
  two maps, two counters, three flags), with one function per operation.
  It also holds the constructor's checks and the message dispatch
  (`ParseMessage` picks the command, `Apply` performs it).
- `dust_target.dfy` (`DustTarget`): `struct dust_device` as the class
  `DustDevice`, whose methods update its fields in place. Each
  spin-locked region is one method call.
  - Through the abstract view `State()`, most methods are proved against
    the `DustSpec` function of the same name.
  - `QueryBlock` and `MapReadLocked` state their result directly on the
    tree contents.
  - `Message` and its four helpers (`OneWordMessage`, `TwoWordMessage`,
    `BlockMessage`, `BlockCountMessage`) are proved against
    `DustSpec.Message`.
  - The constructor is proved against `DustSpec.Initial`.
  - `DustCtr` is the constructor's check sequence.
- `dust_properties.dfy` (`DustProperties`): properties that relate several
  operations:
  - the write-fail countdown and self-heal;
  - permanent write failures;
  - round trips;
  - the counters as written and as evidently intended;
  - message facts.

Inputs that the kernel takes from its surroundings are parameters:

| Parameter | Kernel source |
|---|---|
| `allocOk` | whether `kmalloc`/`kzalloc` succeeds |
| `deviceOk` | whether `dm_get_device` succeeds |
| `devSectors` | the underlying device's size in sectors (`i_size_read >> SECTOR_SHIFT`) |
| `tiLen` | `ti->len` |
| the direction and the target-relative sector of a bio | what `bio_data_dir` and `dm_target_offset` return |

Message arguments are tokens that carry their text and, when the text
reads as an unsigned decimal, its number. `strcasecmp(a, b) == 0` is ASCII
case-insensitive equality (`IsWord`).

Two behaviours of the code worth noting:
- `__dust_map_write` returns `DM_MAPIO_KILL` as soon as the write list
  matches (dm-dust.c:241-244). It never falls through to the read list in
  that case.
- Both branches of the counter update in `dust_add_block` increment
  `badblock_count_read` (dm-dust.c:176-179). `DustSpec.AddBlock` and
  `DustTarget.DustDevice.AddBlock` do the same. See "Findings".

A `BUG_ON(count != 0)` in `__dust_clear_badblocks` is not modelled as a
crash. It is reported as the result `bugOn`, and the model states exactly
when it fires.

## Model

| member | source | states |
|---|---|---|
| KernelTypes.Inc64 | dm-dust.c:177 | incrementing an unsigned 64-bit counter gives (x + 1) mod 2^64 |
| KernelTypes.Dec64 | dm-dust.c:126 | decrementing an unsigned 64-bit counter gives (x - 1) mod 2^64, so 0 wraps to 2^64 - 1 |
| BadBlockTree.Search | dm-dust.c:58-74 | returns NULL exactly when the key is absent, and otherwise the entry with that key and its stored count; the tree is a value and is not changed |
| BadBlockTree.Insert | dm-dust.c:77-99 | refuses (false) exactly when the key is already present, and then the tree is unchanged; otherwise exactly one entry (key, count) is added and the tree stays ordered |
| BadBlockTree.Link | dm-dust.c:95-96 | linking a new leaf where the descent ends adds exactly that key with its count |
| BadBlockTree.LinkWithin | dm-dust.c:77-99 | the new leaf lands where the descent for its key ends, so the tree stays a search tree within its bounds |
| BadBlockTree.Erase | dm-dust.c:122-124 | erasing a node removes exactly its key and keeps every other entry with its count |
| BadBlockTree.EraseWithin | dm-dust.c:122-124 | erasing keeps the tree a search tree within its bounds (the successor replaces an erased inner node) |
| BadBlockTree.SetCount | dm-dust.c:248 | rewriting an entry's write-fail count changes only that key's value |
| BadBlockTree.SetCountWithin | dm-dust.c:248 | rewriting a count keeps the tree a search tree |
| BadBlockTree.RemoveMin | dm-dust.c:310-319 | erasing the first node removes exactly its key and one node; the detached entry is in the tree with its count |
| BadBlockTree.RemoveMinWithin | dm-dust.c:310-319 | what is left lies strictly above the detached key, within the old bounds |
| BadBlockTree.RemoveMinIsFirst | dm-dust.c:310 | the node `rb_first` yields holds the smallest block in the tree |
| BadBlockTree.RemoveMinOrdered | dm-dust.c:316-319 | erasing the first node leaves an ordered tree |
| BadBlockTree.KeyWithin | dm-dust.c:65-68 | every key of a search tree lies within the bounds the descent has narrowed to |
| BadBlockTree.Excludes | dm-dust.c:65-68 | a key outside those bounds is not in the subtree, which is why one descent decides membership |
| BadBlockTree.EmptyIffLeaf | dm-dust.c:310-314 | `rb_first` is NULL exactly when the tree holds no keys |
| BadBlockTree.SizeIsCardinality | dm-dust.c:316-321 | in a search tree the number of nodes the loop frees equals the number of keys |
| BadBlockTree.FreeAll | dm-dust.c:316-321 | the loop leaves `count` decremented (wrapping) once per node |
| BadBlockTree.ClearAll | dm-dust.c:305-327 | returns false exactly when the tree is empty; BUG_ON fires exactly when the passed count differs from the number of entries mod 2^64 |
| BadBlockTree.DecrementedToZero | dm-dust.c:316-323 | n wrapped decrements bring a counter to 0 exactly when it started at n mod 2^64 |
| BadBlockTree.ClearedCount | dm-dust.c:316-323 | freeing every node brings the count to 0 exactly when it was the number of entries mod 2^64 |
| DustSpec.AddBlock | dm-dust.c:137-188 | -ENOMEM with no change when allocation fails; -EINVAL with no change on a duplicate; otherwise the entry is added to the selected list and the read counter is incremented in both modes, so the write counter never changes; the other list and the flags are unchanged |
| DustSpec.RemoveBlock | dm-dust.c:101-135 | -EINVAL with no change when the block is absent; otherwise exactly that key leaves the selected list and that mode's counter is decremented; the other list, its counter and the flags are unchanged |
| DustSpec.QueryBlock | dm-dust.c:191-208 | returns 0, changes nothing, and reports whether the block is on the selected list |
| DustSpec.ClearBadblocks | dm-dust.c:329-366 | returns 0; the selected list is empty and its counter 0; the other list, counter and flags are unchanged; reports whether entries were found and whether BUG_ON fires |
| DustSpec.MapRead | dm-dust.c:220-234 | without `fail_read_on_bb` it passes; otherwise it kills exactly when the block `sector >> shift` is on the read list |
| DustSpec.MapWriteLocked | dm-dust.c:236-265 | kills with no change on a write-list hit when `fail_write_on_bb` is set; otherwise kills exactly when a read entry with positive count exists and `fail_read_on_bb` is set; the write list, write counter and flags never change; only the entry for the block may change or vanish; the read counter changes only when an entry vanishes; a write caught by neither list (flag off or block absent) passes and changes nothing; a countdown kill leaves the state with exactly that entry one lower; a write at count 0 erases exactly that entry, decrements the read counter and passes |
| DustSpec.MapReadLocked | dm-dust.c:210-218 | kills exactly when the block is on the read list |
| DustSpec.BlockOfIsQuotient | dm-dust.c:227 | shifting a sector right by `sect_per_block_shift` gives sector / 2^shift, the block whose 2^shift sectors contain it |
| DustSpec.MapWrite | dm-dust.c:267-287 | with both flags off nothing changes and the request passes; with either flag on, verdict and new state are MapWriteLocked's for the block `sector >> shift`; the write list and flags never change |
| DustSpec.Map | dm-dust.c:289-303 | a read is decided by MapRead on sector `start + offset` (mod 2^64) with the device's read flag and changes nothing; a write is MapWrite on that sector with both flags; no request changes the write list or the flags |
| DustSpec.Initial | dm-dust.c:441-458 | the constructor's state: both counters equal their (empty) lists' sizes and every flag is off |
| DustSpec.Pow2IsPowerOf2 | dm-dust.c:402 | every 2^k passes `is_power_of_2` |
| DustSpec.IsPowerOf2Exactly | dm-dust.c:402 | `is_power_of_2` accepts exactly the numbers 2^k |
| DustSpec.Ffs | dm-dust.c:435 | for a power of 2, 1 << `__ffs(n)` is n |
| DustSpec.SectorsPerBlockIsPowerOf2 | dm-dust.c:402-421 | a power-of-2 block size of at least 512 gives a power-of-2 number of sectors per block, at least 1 |
| DustSpec.CheckCtr | dm-dust.c:377-467 | accepts exactly when there are 3 arguments, the block size parses, is at least 512, is a power of 2 and `blksz/512 <= min(ti->len, 2097152)`, the offset parses, and allocation and lookup succeed; then `sect_per_block = blksz >> 9` and `1 << sect_per_block_shift == sect_per_block`; a refusal is -ENOMEM exactly when every argument check passes and the allocation fails, and a device-lookup failure exactly when everything before it passes |
| DustSpec.CtrErrno | dm-dust.c:387-429 | only the failed context allocation returns -ENOMEM; every other refusal returns -EINVAL |
| DustSpec.IsWordIgnoresCase | dm-dust.c:493 | `strcasecmp(a, w) == 0` holds exactly when a and w are equal once both are lowered |
| DustSpec.ModeOf | dm-dust.c:616-623 | the mode is read exactly for the word "read" and write exactly for "write", in any case; any other word names no list |
| DustSpec.ParseMessage | dm-dust.c:479-694 | every accepted block number is at most the device size in blocks; accepted commands have the argument counts the dispatch requires; a 3-argument add has count 0 and a 4-argument add carries its count; every accepted command carries the command word and mode word that name it, so any other message is rejected (-EINVAL) |
| DustSpec.Apply | dm-dust.c:479-694 | a rejected message returns -EINVAL and changes nothing; quiet flips only `quiet_mode`; enable/disable set or clear only the named flag; clear empties the named list and zeroes its counter; count reports the named counter and changes nothing; query reports presence and changes nothing; add succeeds exactly when allocation succeeds and the block is new, adding it; remove succeeds exactly when the block is listed, removing it; no command other than add and remove changes the state when it fails |
| DustSpec.Message | dm-dust.c:479-694 | every message returns 0, -EINVAL or -ENOMEM |
| DustTarget.DustDevice.constructor | dm-dust.c:432-458 | keeps the geometry; both lists are empty, both counters 0, every flag off |
| DustTarget.DustDevice.RemoveBlock | dm-dust.c:101-135 | the new state and return code are those of DustSpec.RemoveBlock; the trees stay ordered |
| DustTarget.DustDevice.AddBlock | dm-dust.c:137-188 | the new state and return code are those of DustSpec.AddBlock |
| DustTarget.DustDevice.QueryBlock | dm-dust.c:191-208 | returns 0 and finds the block exactly when it is on the selected list, without changing the device |
| DustTarget.DustDevice.MapReadLocked | dm-dust.c:210-218 | kills exactly when the block is on the read list, without changing the device |
| DustTarget.DustDevice.MapRead | dm-dust.c:220-234 | the verdict is DustSpec.MapRead's, without changing the device |
| DustTarget.DustDevice.MapWriteLocked | dm-dust.c:236-265 | verdict and new state are DustSpec.MapWriteLocked's |
| DustTarget.DustDevice.MapWrite | dm-dust.c:267-287 | verdict and new state are DustSpec.MapWrite's |
| DustTarget.DustDevice.Map | dm-dust.c:289-303 | verdict and new state are DustSpec.Map's for the device's own flags and start |
| DustTarget.DustDevice.ClearBadblocks | dm-dust.c:329-366 | return code, new state and report are DustSpec.ClearBadblocks's |
| DustTarget.DustDevice.Message | dm-dust.c:479-694 | return code, new state and report are DustSpec.Message's |
| DustTarget.DustDevice.OneWordMessage | dm-dust.c:492-513 | the same for one argument |
| DustTarget.DustDevice.TwoWordMessage | dm-dust.c:514-604 | the same for two arguments |
| DustTarget.DustDevice.BlockMessage | dm-dust.c:605-653 | the same for three arguments |
| DustTarget.DustDevice.BlockCountMessage | dm-dust.c:654-686 | the same for four arguments |
| DustTarget.DustCtr | dm-dust.c:377-467 | a refusal returns CheckCtr's error number and no device; an acceptance returns 0 and a new device with CheckCtr's geometry in the initial state |
| DustProperties.CountdownThenHeal | dm-dust.c:236-265 | a read entry with count n (with `fail_read_on_bb` set and no write-list kill) makes n writes fail, then one write erases it (read counter decremented once) and passes, and the next passes; the write list and flags are untouched and reads of the block then pass; after the n kills the entry is still listed with count 0 and nothing else has changed |
| DustProperties.CountdownKeepsEntry | dm-dust.c:247-250 | the n failing writes give n kills and leave the entry on the read list with count 0, the rest of the state unchanged |
| DustProperties.HealThenPass | dm-dust.c:252-264 | at count 0 the next write erases the entry, decrements the read counter once and passes, and the write after it passes with no change |
| DustProperties.CountdownFromTwo | dm-dust.c:246-256 | a count of 2 gives kill, kill, pass, pass; after the two kills the entry is still listed with count 0, and the third write is the one that erases it |
| DustProperties.WriteListHitIsPermanent | dm-dust.c:240-243 | with `fail_write_on_bb` set, every write to a write-listed block fails and changes nothing, not even a read entry's count |
| DustProperties.ReadAddRemoveRoundTrip | dm-dust.c:101-188 | adding a new block to the read list and removing it restores the state exactly, counter included |
| DustProperties.AddTwiceRefused | dm-dust.c:150-173 | a second add of the same block returns -EINVAL and changes nothing |
| DustProperties.RemoveAbsentRefused | dm-dust.c:107-118 | removing an absent block returns -EINVAL and changes nothing |
| DustProperties.MapWriteKeepsCountsExact | dm-dust.c:245-256 | a write request keeps the counters equal to the list sizes when they were |
| DustProperties.WriteAddMiscounts | dm-dust.c:176-179 | a write-mode add from exact counters leaves the write counter one short and the read counter one over |
| DustProperties.WriteAddThenClearTripsBug | dm-dust.c:323 | on a fresh device, adding a write block and clearing the write list finds an entry and trips BUG_ON |
| DustProperties.WriteAddThenRemoveWraps | dm-dust.c:128 | on a fresh device, adding a write block and removing it wraps the write counter to 2^64 - 1 while the read counter stays 1 |
| DustProperties.AddBlockIntended | dm-dust.c:176-179 | the intended add returns what the code returns and adds the same entry, but increments the selected list's own counter and leaves the other list and counter alone |
| DustProperties.ApplyIntended | dm-dust.c:176-179 | with the intended add every message returns the same code and report and leaves the same lists and flags as the code as written; only a successful add's counters differ, the selected one incremented and the other untouched |
| DustProperties.IntendedKeepsCountsExact | dm-dust.c:479-694 | with the intended add, every message keeps both counters equal to their lists' sizes |
| DustProperties.IntendedAddKeepsCountsExact | dm-dust.c:176-179 | the intended add keeps both counters exact |
| DustProperties.OthersKeepLists | dm-dust.c:479-694 | messages other than add, remove and clear change neither list nor counter |
| DustProperties.ClearKeepsCountsExact | dm-dust.c:329-366 | a clear keeps both counters exact |
| DustProperties.RemoveKeepsCountsExact | dm-dust.c:121-129 | a remove keeps both counters exact |
| DustProperties.ExactCountsNeverTripClear | dm-dust.c:305-327 | with exact counters the clear never trips BUG_ON |
| DustProperties.IntendedWriteAddThenClear | dm-dust.c:323 | the finding's input under the intended add clears without tripping BUG_ON |
| DustProperties.QuietTwiceRestores | dm-dust.c:505-510 | "quiet" flips only `quiet_mode` and returns 0; twice restores the state |
| DustProperties.EnableSetsOnlyItsFlag | dm-dust.c:523-538 | "enable read/write" sets only the named flag and returns 0 |
| DustProperties.DisableClearsOnlyItsFlag | dm-dust.c:539-554 | "disable read/write" clears only the named flag and returns 0 |
| DustProperties.BlockRangeBoundary | dm-dust.c:610-614 | a block equal to size/sect_per_block is accepted (the add is performed); a larger one returns -EINVAL with no change |
| DustProperties.BlockRangeBoundaryWithCount | dm-dust.c:667-680 | for a 4-argument add with a count of at most 255, a block equal to size/sect_per_block is added with that count; a larger one returns -EINVAL with no change |
| DustProperties.RemoveMessageRemoves | dm-dust.c:628-639 | "removebadblock read/write N" with N within the device performs the remove; a larger N returns -EINVAL with no change |
| DustProperties.QueryMessageReports | dm-dust.c:640-651 | "queryblock read/write N" with N within the device returns 0, changes nothing and reports whether N is listed; a larger N returns -EINVAL |
| DustProperties.ClearMessageClears | dm-dust.c:571-582 | "clearbadblocks read/write" performs the clear of the named list |
| DustProperties.CountMessageReports | dm-dust.c:583-599 | "countbadblocks read/write" returns 0, changes nothing and reports the named counter `badblock_count_*` |
| DustProperties.FailCountAbove255Refused | dm-dust.c:662-665 | a 4-argument message with a count above 255 returns -EINVAL with no change |
| DustProperties.ReadFailScenario | dm-dust.c:220-234 | after "enable read" and "addbadblock read 100", a read in block 100 is killed and one in block 101 passes |

## Left out

- Locking: `spin_lock_irqsave`/`spin_unlock_irqrestore` and all concurrency. Each locked region is one atomic method call.
- Red-black balancing: `rb_insert_color` recolouring and the rebalancing inside `rb_erase`. The tree is an unbalanced ordered tree with the same keys.
- `dust_rb_insert`'s `link`/`parent` pointers: the loop only detects a duplicate, and `Link` places the new leaf by its own recursive descent. The descent reaches the same position, but the pointer bookkeeping is not modelled.
- `rb_next`: the clear loop erases the first node each time, which frees the same nodes in the same order.
- Allocation: `kmalloc`, `kzalloc` and `kfree`. A failed allocation is the `allocOk` parameter.
- Logging: `DMINFO`, `DMERR` and the effect of `quiet_mode` on them, including the `sector_div` at dm-dust.c:257 that computes only a log value. The flag itself is modelled. What a query, count or clear logs is returned as a `Report`.
- Bio and device plumbing: `bio_set_dev`, `dm_target_offset`, `bio_data_dir`, `dm_get_device`, `i_size_read` and `dm_set_target_max_io_len` become parameters or are not modelled.
- String parsing: the bounds that `sscanf("%llu")`, `sscanf("%u")` and `kstrtouint` place on a parsed number are not modelled. A number that parses is an unbounded natural number, and one that does not parse is `None`.
- `DustCtr`: the `tmp != (sector_t)tmp` offset check is part of parsing. The offset reaches the model already as a 64-bit value.
- Not part of this model: `dust_status`, `dust_prepare_ioctl`, `dust_iterate_devices`, `dust_dtr`, the `target_type` table and `dm_dust_init`/`dm_dust_exit`.
- `BUG_ON`: it is returned as the `bugOn` report. The kernel stops at that point, and the model does not.

## Findings

| source | as written | input that shows it | evidently intended | confidence | as-written member | corrected member |
|---|---|---|---|---|---|---|
| dm-dust.c:176-179 | both branches of `dust_add_block` increment `badblock_count_read`, so a write-mode add never counts in `badblock_count_write` | fresh device: "addbadblock write 5" then "clearbadblocks write" trips `BUG_ON(count != 0)` at dm-dust.c:323; "addbadblock write 5" then "removebadblock write 5" wraps `badblock_count_write` to 2^64 - 1 | the write branch increments `badblock_count_write`, so both counters equal their lists' sizes and the clear never trips | high (proved on the model; not executed) | DustProperties.WriteAddThenClearTripsBug | DustProperties.AddBlockIntended |

- As-written side: `DustProperties.WriteAddMiscounts` and `DustProperties.WriteAddThenRemoveWraps` show the same drift.
- Corrected side:
  - `DustProperties.AddBlockIntended` and `DustProperties.ApplyIntended` are the corrected definitions.
  - `DustProperties.IntendedKeepsCountsExact` proves that both counters stay exact for every message.
  - `DustProperties.ExactCountsNeverTripClear` proves that the clear then never trips.
  - `DustProperties.IntendedWriteAddThenClear` replays the finding's input.
- The device class `DustTarget.DustDevice` and `DustSpec.AddBlock` keep the code's behaviour as written, because they model the target as it runs.
