# fcheck, modelled in Dafny

`fcheck` checks an xv6 file-system image for consistency. It takes the image, then makes three passes:

1. **Forward pass.** It walks the inode table once. For each inode it checks:
   - the inode's type (check 1);
   - its block addresses (check 2);
   - the root directory, for inode 1 (check 3);
   - the ".", ".." and dangling entries of a directory (checks 4 and 10).

   It also claims the inode's blocks in a per-block usage table (checks 5, 7 and 8). While walking directories it fills a per-inode table with in-use flags, parents and reference counts.
2. **Bitmap sweep.** Every data block the bitmap marks must have been claimed (check 6).
3. **Reconciliation.** Compares the reference counts with the inodes' types and link counts (checks 9, 11 and 12).

The first violation ends the run with an error message. An image that passes every check ends it with status 0.

This project models that checker, `main` in `fcheck.c`, with its two helpers `isBlockUsed` and `getBlock`, and proves what a passing run guarantees.

## Modules

- `layout.dfy`, `FsLayout`: the on-disk format constants and the checker's address arithmetic:
  - `getBlock`;
  - `BBLOCK`;
  - the byte and bit of a block's bitmap entry.
- `image.dfy`, `FsImage`: the image as the checker sees it.
  - The superblock and the inode table are already decoded.
  - Directory entries, the words of indirect blocks and bitmap bytes are decoded from the image's bytes, at the byte offsets the checker computes.
  - `IsBlockUsed` is `isBlockUsed`.
- `spec.dfy`, `FsSpec`: every pass as a pure function over the two derived tables, in the order `main` runs the checks.
  - `Fsck` is the whole checker.
  - It returns the derived tables, or the first error.
- `fcheck.dfy`, `FsCheck`: the checker as the program runs it.
  - Both tables are arrays, updated in place by the loops of the forward pass.
  - Each loop keeps its own counters, including the directory walk's `de` cursor, `blockstraversed` and `indblocktraversed`.
  - Every method is proved to compute its `FsSpec` function. `CheckImage` is proved to return exactly `Fsck(img)`.
- `walkprops.dfy`, `FsWalkProps`: what the walk of one directory establishes:
  - when it fails;
  - which flags it sets;
  - which parent it records;
  - how it changes every reference count.
- `claimprops.dfy`, `FsClaimProps`: what claiming one inode's blocks establishes:
  - when it fails, with which error;
  - what it records in the usage table.
- `fsckprops.dfy`, `FsckProps`: what a passing run guarantees about the image and the tables.
  - Invariants of both tables are proved across the forward pass.
  - The headline theorem is `FsckAcceptsExactlyConsistent`. The checker accepts an image exactly when it is `Consistent`, a property stated without the derived tables:
    - every inode passes its own checks;
    - each in-use inode's non-zero addresses are marked in the bitmap and pairwise distinct;
    - no block is claimed by two inodes;
    - every marked data block is claimed;
    - the link counts agree with the directory entries.
- `errprops.dfy`, `FsckErrors`: which error a failing run reports, stated over the image alone.
  - For one inode: the first of its own checks that fails, or else its first slot that cannot be claimed.
  - For the forward pass: the error of the first inode that fails.
  - For the whole run (`FsckError`): the forward pass's error; else "bitmap marks block in use"; else the error of the first inode whose link counts disagree with the entries.

### Behaviour of the code that the model keeps

- **Contiguous directory reads.** The directory walk reads entries contiguously from `addrs[0]` (`de++`). It runs on into the physically next blocks, not into `addrs[1..]`.
  - After `NDIRECT * DPB` entries it moves to the block named by the *first word* of the indirect block, and again reads on contiguously (`EntryOffset`).
  - The root check reads contiguously from `addrs[0]` and never moves.
- **Indirect entries recorded as direct.** Addresses held in an indirect block are recorded with kind "direct address" (`FsckBlockOwners`, `EntryOwners`). A second claim of one of them still reports "indirect address used more than once".
- **The root's own reference count.** While the root is walked, its count is reset to 1 after every entry with a non-zero inode number.
  - So the root's final count is 1 plus the references from directories walked after it (`RefTotal`).
  - A directory walked before the root loses its references to the root.
- **Which inodes are reconciled.** Reconciliation covers inodes 1 to ninodes − 1. An image with fewer than two inodes has no root check at all.
- **Blocks below the data area.** Only the bitmap bit is checked when a block is claimed. A block below the data area can therefore be claimed when its bit is set. The bitmap sweep starts at the first data block.

## Model

| member | source | states |
|---|---|---|
| FsLayout.BBlock | fcheck.c:56 | Defines BBLOCK: the bitmap block holding block `b`'s bit, counted past the boot block, the superblock and the inode blocks |
| FsLayout.GetBlock | fcheck.c:70-73 | The offset of block `blocknum` is a whole number of blocks, namely `blocknum` blocks, into the image |
| FsLayout.BitmapByteOffset | fcheck.c:56-62 | The byte holding a block's bitmap bit lies inside bitmap block BBLOCK(b) |
| FsLayout.BitmapBitIndex | fcheck.c:57-61 | The bit index within the bitmap byte is below 8 |
| FsLayout.BitmapPositionDeterminesBlock | fcheck.c:54-66 | Two blocks with the same bitmap byte and bit are the same block |
| FsLayout.CursorCrossesBlocks | fcheck.c:200 | A cursor advanced `i` entries from a block start lands in block `b + i / DPB` at slot `i % DPB`, and an entry never straddles two blocks |
| FsImage.WordAt | fcheck.c:149 | A `uint` read from the image is below 2^32 |
| FsImage.CStringAtBytes | fcheck.c:213 | The name compared by `strcmp` is the field's bytes up to the first NUL: it holds no NUL, each byte is the image's byte, and a short name is followed by a NUL |
| FsImage.DirEntAt | fcheck.c:192 | A directory entry is a 16-bit inode number and a name of at most DIRSIZ bytes |
| FsImage.IsBlockUsed | fcheck.c:54-66 | A block is in use exactly when bit `(b % BPB) % 8` of byte `(b % BPB) / 8` of bitmap block BBLOCK(b) is set |
| FsImage.MaskTestIsBit | fcheck.c:61-62 | Testing a byte against the mask `1 << k` reads bit `k` of the byte |
| FsSpec.Message | fcheck.c:45-51 | Defines the text `throwerr` prints after "ERROR: " for each error kind, as the checks pass it (fcheck.c:123-369) |
| FsSpec.AddressCheck | fcheck.c:129-157 | Defines check 2: the direct addresses, then the indirect address, then the non-zero words of the indirect block, each below `size` |
| FsSpec.RootParentIsSelf | fcheck.c:163-182 | Defines the root test: some entry read contiguously from `addrs[0]` is ".." and names inode 1 |
| FsSpec.FirstIndirectBlock | fcheck.c:206-209 | Defines the block the walk jumps to: the one named by the first word of the indirect block |
| FsSpec.EntryOffset | fcheck.c:192-211 | Defines where the walk reads entry `i`: contiguously from `addrs[0]`, and from entry NDIRECT * DPB on contiguously from the first indirect-referenced block |
| FsSpec.EntryBlock | fcheck.c:192-211 | Entry `i` below NDIRECT * DPB lies in block `addrs[0] + i / DPB`, whatever `addrs[1..]` hold. Entry `i` from NDIRECT * DPB on lies in block `FirstIndirectBlock + (i - NDIRECT * DPB) / DPB`. Either way it sits at slot `i % DPB`, counted from the jump |
| FsSpec.Entries | fcheck.c:195-211 | Defines the `size / 16` entries the walk reads, entry `i` decoded at `EntryOffset(i)` |
| FsSpec.VisitName | fcheck.c:213-223 | Defines the name tests of one entry: ".." sets its flag and the parent, "." sets its flag, and the self flag when it names the directory |
| FsSpec.CountRef | fcheck.c:233-241 | Defines the reference bookkeeping: a non-dot entry adds one to its target; while the root is walked its own count is then set to 1 |
| FsSpec.StepEntry | fcheck.c:213-241 | Defines one pass of the entry loop: name tests, then the dangling check, then the bookkeeping; only its table length is stated |
| FsSpec.WalkFrom | fcheck.c:200-243 | Defines the entry loop from entry `i`, stopping at the first error; only its table length is stated |
| FsSpec.DirCheck | fcheck.c:187-248 | Defines check 4 and check 10 for one directory: the walk, then the ".", ".." and self tests |
| FsSpec.ClaimSlots | fcheck.c:256-326 | Defines the addresses an in-use inode claims, in order: the NDIRECT direct addresses, then the indirect block, then its NINDIRECT words. The words are recorded as direct-address blocks but report the indirect-address duplicate error |
| FsSpec.ClaimSlot | fcheck.c:261-321 | Defines one claim: a zero address is skipped, a clear bitmap bit fails, then a second use fails; only its table length is stated |
| FsSpec.ClaimFrom | fcheck.c:256-326 | Defines the claims of slots `i..` in order, stopping at the first error; only its table length is stated |
| FsSpec.ClaimStages | fcheck.c:256-326 | Claiming the direct addresses, then the indirect block, then its entries, is claiming the inode's slot list in order |
| FsSpec.SlotsInRange | fcheck.c:127-157 | Once the address check passes, every address the inode claims indexes the usage table |
| FsSpec.InodeStep | fcheck.c:123-326 | Defines all checks of one inode in the source's order: type, addresses, root, directory, claims; only the table lengths are stated |
| FsSpec.Forward | fcheck.c:121-328 | Defines the forward pass from inode `k`, stopping at the first error; only the table lengths are stated |
| FsSpec.DataStart | fcheck.c:334-337 | Defines the first block the sweep visits: 3 + ninodes / IPB + nblocks / BPB + 1 |
| FsSpec.BitmapBacked | fcheck.c:339-346 | Defines check 6: no block from DataStart to `size - 1` is marked in the bitmap with use count 0 |
| FsSpec.ReconcileFrom | fcheck.c:355-372 | Defines the reconciliation loop from inode `j`: orphan test, file link count, directory named twice |
| FsSpec.Fsck | fcheck.c:107-374 | Defines the whole checker: the forward pass over zeroed tables, the sweep, then reconciliation from inode 1 |
| FsCheck.ValidateAddresses | fcheck.c:127-159 | Check 2 fails exactly as the address check does: on the first out-of-range direct address, then on the indirect address, then on its entries |
| FsCheck.CheckRootDir | fcheck.c:163-183 | The root check succeeds exactly when some entry read contiguously from `addrs[0]` is ".." naming the root |
| FsCheck.WalkDirectory | fcheck.c:187-248 | The walk of a directory leaves the inode table, or reports the error, exactly as the directory check specifies |
| FsCheck.WalkEntries | fcheck.c:189-243 | The entry loop returns the walk's flags and table, or its first error |
| FsCheck.WalkEntry | fcheck.c:200-242 | One loop pass advances the cursor state to the next entry and the walk by one entry |
| FsCheck.NextEntry | fcheck.c:202-211 | The cursor points at entry `i`, the block counter has counted `i / DPB + 1` blocks, and the move to the indirect-referenced block has happened exactly from entry NDIRECT * DPB on |
| FsCheck.VisitEntry | fcheck.c:213-241 | The body of the entry loop performs exactly one entry step: name tests, dangling check, then reference bookkeeping |
| FsCheck.ClaimBlocks | fcheck.c:256-326 | Claiming an in-use inode's blocks leaves the usage table, or reports the error, exactly as the claims of its slot list specify |
| FsCheck.ClaimDirect | fcheck.c:259-286 | The direct-address loop makes the claims of the direct slots in order |
| FsCheck.ClaimDirectAddress | fcheck.c:261-285 | One direct claim: a clear bitmap bit fails, then a second use fails, otherwise the block is recorded once, for this inode |
| FsCheck.ClaimEntries | fcheck.c:303-323 | The loop over the indirect block makes the claims of its entries in order |
| FsCheck.ClaimAddress | fcheck.c:291-301 | One indirect-side claim: a clear bitmap bit fails, then a second use fails, otherwise the block is recorded once, for this inode |
| FsCheck.CheckInode | fcheck.c:123-327 | All checks of one inode, in the source's order, update both tables or report the error exactly as one step of the forward pass specifies |
| FsCheck.SweepBitmap | fcheck.c:334-346 | The sweep fails exactly when some block from the data start on is marked in the bitmap but unclaimed |
| FsCheck.ReconcileRefs | fcheck.c:355-372 | The reconciliation loop reports the first failing test from inode 1 on |
| FsCheck.CheckImage | fcheck.c:107-374 | The whole checker returns the derived tables, or the first error, exactly as the three passes specify |
| FsWalkProps.VisitNameEffect | fcheck.c:213-223 | ".." sets its flag and records the parent; "." sets its flag and the self flag when it names the directory; nothing else changes |
| FsWalkProps.CountRefEffect | fcheck.c:233-241 | A non-dot entry adds one to the count of the inode it names; while the root is walked its count becomes 1; no other count and no flag or parent changes |
| FsWalkProps.StepEntryEffect | fcheck.c:213-241 | An entry step fails exactly on a non-zero inode number naming no in-use inode, with the "marked free" error; otherwise it sets the flags, the parent and the counts as the source does |
| FsWalkProps.WalkFromOutcome | fcheck.c:200-243 | A walk fails exactly when some entry names an inode that is not in use, and then with the "marked free" error |
| FsWalkProps.WalkFromFlags | fcheck.c:213-223 | After a walk the ".", ".." and self flags are set exactly when such an entry was read |
| FsWalkProps.WalkFromRefs | fcheck.c:233-238 | A walk adds to each count the number of non-dot entries naming that inode (the root's own count aside) |
| FsWalkProps.WalkFromRootRefs | fcheck.c:239-240 | Walking the root leaves its own count at 1 when some entry has a non-zero inode number, and unchanged otherwise |
| FsWalkProps.WalkFromKeeps | fcheck.c:200-243 | A walk changes no in-use flag and no parent except that of the directory walked |
| FsWalkProps.WalkFromParent | fcheck.c:213-217 | The parent recorded is the inode number of the last ".." entry; with no ".." the parent is kept |
| FsWalkProps.DirCheckOutcome | fcheck.c:187-248 | The directory check passes exactly when no entry dangles and ".", "..", and "." naming the directory are present; a dangling entry is reported before a missing name |
| FsWalkProps.DirCheckTable | fcheck.c:187-248 | A passing directory check keeps the in-use flags and the other parents, records the last ".." as parent, and adds every reference to the counts (the root is set to 1) |
| FsClaimProps.ClaimSlotOutcome | fcheck.c:261-321 | A claim fails exactly on a non-zero block that is unmarked or already used: unmarked first, then the kind's duplicate error; a zero address changes nothing; a successful claim records the block as used once, by this inode, with the slot's kind |
| FsClaimProps.ClaimFromOutcome | fcheck.c:256-326 | An inode's claims pass exactly when its non-zero addresses are all marked, all unused so far, and pairwise distinct |
| FsClaimProps.ClaimFromFailure | fcheck.c:256-326 | Failing claims stop at the first slot that is not claimable: it has a non-zero address that is unmarked, already used, or named by an earlier slot. The error is "marked free in bitmap" for an unmarked block, otherwise the slot's duplicate error |
| FsClaimProps.ClaimFromEffect | fcheck.c:256-326 | Passing claims record each non-zero address as used once, by this inode, with its kind, and leave every other block unchanged |
| FsckProps.InodeStepOutcome | fcheck.c:123-326 | One inode passes the forward pass exactly when its own checks pass and its claims fit, are marked, distinct and unused so far |
| FsckProps.ForwardChecks | fcheck.c:121-328 | A passing forward pass has passed every inode's own checks and claim conditions |
| FsckProps.InodeStepInodes | fcheck.c:129-248 | Each inode step keeps the inode-table invariant: in-use flags, last-".." parents, and counts equal to the references made so far |
| FsckProps.RefTotalStep | fcheck.c:233-241 | Walking one more directory adds its references to each count; the root's count is 1 right after the root is walked |
| FsckProps.InodeStepBlocks | fcheck.c:256-326 | Each inode step keeps the usage-table invariant: each block is free, or used once by one earlier inode that claims it and marked in the bitmap |
| FsckProps.ForwardInodes | fcheck.c:121-328 | A passing forward pass ends with the inode-table invariant for all inodes |
| FsckProps.ForwardBlocks | fcheck.c:121-328 | A passing forward pass ends with the usage-table invariant for all inodes |
| FsckProps.ReconcileOutcome | fcheck.c:355-372 | Reconciliation passes exactly when every inode passes its three tests; otherwise it reports the first failing test of the first failing inode |
| FsckProps.FsckTables | fcheck.c:107-374 | A passing run has passed every inode's checks, left both tables with their invariants, a backed bitmap and reconciled counts |
| FsckProps.FsckSound | fcheck.c:107-374 | A passing run means the image is consistent |
| FsckProps.ForwardPasses | fcheck.c:121-328 | On a consistent image the forward pass passes |
| FsckProps.BlocksBackBitmap | fcheck.c:334-346 | When every marked data block is claimed, the final usage table passes the bitmap sweep |
| FsckProps.InodesReconcile | fcheck.c:355-372 | When the link counts agree with the entries, the final inode table passes reconciliation |
| FsckProps.FsckComplete | fcheck.c:107-374 | On a consistent image the run passes |
| FsckProps.FsckAcceptsExactlyConsistent | fcheck.c:107-374 | The checker accepts an image if and only if it is consistent |
| FsckProps.DirectOwners | fcheck.c:259-285 | Each non-zero direct address of an in-use inode is marked and recorded as a direct-address block used once by that inode |
| FsckProps.IndirectOwner | fcheck.c:289-301 | The indirect block of an in-use inode is marked and recorded as an indirect-address block used once by that inode |
| FsckProps.EntryOwners | fcheck.c:303-321 | Each non-zero entry of an indirect block is marked and recorded as a direct-address block used once by its inode |
| FsckProps.FsckBlockOwners | fcheck.c:256-326 | After a passing run the usage table records every block of every in-use inode with its owner and kind |
| FsckErrors.UsedIffClaimedBefore | fcheck.c:264-316 | Once inodes `0..m-1` are handled, a block's use count is non-zero exactly when one of those inodes claims it |
| FsckErrors.InodeStepCheckError | fcheck.c:123-246 | An inode whose own checks fail reports the first failing one: bad type; then a direct address out of range; then the indirect address or one of its words out of range; then a missing root; then a dangling entry; then a badly formatted directory |
| FsckErrors.ClaimsPassIff | fcheck.c:256-326 | After the inodes before it, an inode's claims pass exactly when each non-zero address is marked, claimed by no earlier inode, and named by no earlier slot |
| FsckErrors.ClaimsFailure | fcheck.c:256-326 | Failing claims report the first slot that fails that test: "marked free" for an unmarked block, otherwise the slot's duplicate error |
| FsckErrors.InodeStepPassIff | fcheck.c:123-326 | An inode step passes exactly when the inode's own checks pass and, for an in-use inode, every slot can be claimed |
| FsckErrors.InodeStepFailure | fcheck.c:123-326 | A failing inode step reports its first failing own check, or else its first failing claim |
| FsckErrors.InodeStepError | fcheck.c:123-326 | Both of the above for one inode step |
| FsckErrors.ForwardPassIff | fcheck.c:121-328 | The forward pass passes exactly when every inode passes |
| FsckErrors.ForwardFailure | fcheck.c:121-328 | A failing forward pass reports the error of the first inode that fails |
| FsckErrors.SweepOutcome | fcheck.c:334-346 | After a passing forward pass, the sweep passes exactly when every marked data block is claimed by some in-use inode |
| FsckErrors.ReconcileLinks | fcheck.c:355-372 | After a passing forward pass, reconciliation passes exactly when every inode from 1 on has link counts that agree with the directory entries, and otherwise reports the first inode that does not, with its first failing test |
| FsckErrors.FsckError | fcheck.c:107-374 | A failing run reports, in order: the first inode's failure; else "bitmap marks block in use" when a marked data block is unclaimed; else the first link-count error. All three are stated over the image alone |

## Left out

- Command-line handling, `open`, `fstat` and `mmap`, with their messages (fcheck.c:85-105), are left out. The image is a parameter.
- `throwerr` and `exit` (fcheck.c:45-51, 374) are not modelled as effects. A failing check is an `Err` of one error kind per message. `FsSpec.Message` gives the printed text. `exit(0)` is `Ok`.
- The superblock and the inode table are read by casting the mapped memory (fcheck.c:107-112). The model takes them already decoded. `WellFormed` states that the table holds `ninodes` inodes, each with NDIRECT + 1 addresses. The `IBLOCK` offset is not modelled.
- `fs.h` and `types.h` are not part of this model. The format constants carry xv6's values as literals.
- Reads past the end of the mapped image are undefined in C. The model reads them as zero bytes.
- A directory entry whose inode number is at least `ninodes` makes the C code read past the inode table. The model treats such an entry as naming a free inode, so it reports "inode referred to in directory but marked free".
- Integer widths: the counters in the tables are unbounded naturals, where the C code uses `int`. A use count stops at 2.
- Reference counts can overflow in C; the model counts without bound. Every directory whose indirect address is 0 jumps, after NDIRECT * DPB entries, to the block named by word 0 of block 0. So many large directories can read one shared region of entries naming the same file. This can push `refcount` (fcheck.c:237) past INT_MAX, which is undefined behaviour. If the count then wrapped to 1, a file with link count 1 would pass in C while the model reports "bad reference count for file".
- Integer widths, direct and indirect addresses: at fcheck.c:137 and 143 the unsigned address is held in an `int`. The test `blocknum < 0` is then true for an address of 2^31 or more. The model compares the unsigned address with `size`. This gives the same verdict whenever `size` is at most 2^31, and the C program only gets this far in that case (see the line on the C tables below).
- Integer widths, indirect-block words: at fcheck.c:154 the word is a `uint` and is never converted, so `< 0` is always false there. The model compares the word with `size`, exactly as the C does.
- The C tables `dblocks[sb->size]` and `inodes[sb->ninodes]` (fcheck.c:114, 117) are stack arrays sized from superblock fields nobody checks. A large `size` or `ninodes` crashes the C program before any check runs. The model has no such limit: its tables are sequences of any length.
- The bitmap byte is a C `char`. Sign extension does not change a test against a mask below 256, so the model reads unsigned bytes.
- In the direct-address loop the table is written before the bitmap test (fcheck.c:264-281). `FsCheck.ClaimDirectAddress` keeps this order. The specification functions leave the table unchanged on an error, because the program exits then.
- `xv6/fcheck.c` is an earlier copy of the checker and is not modelled.
