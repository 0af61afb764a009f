/** The checker's behaviour as pure functions: one function per check, in
    the order `main` runs them, over the two derived tables (the per-block
    usage records and the per-inode state records). The first violated
    check decides the result. */
module FsSpec {
  import opened FsLayout
  import opened FsImage

  /** One error kind per diagnostic the checker can print. */
  datatype FsError =
    | BadInode
    | BadDirectAddress
    | BadIndirectAddress
    | RootDirMissing
    | DirNotFormatted
    | RefToFreeInode
    | MarkedFreeInBitmap
    | DirectAddrReused
    | IndirectAddrReused
    | BitmapMarksUnused
    | InodeNotInDirectory
    | BadFileRefCount
    | DirAppearsTwice

  /** The text the error reporter prints after "ERROR: ". */
  function Message(e: FsError): string
  {
    match e
    case BadInode => "bad inode."
    case BadDirectAddress => "bad direct address in inode."
    case BadIndirectAddress => "bad indirect address in inode."
    case RootDirMissing => "root directory does not exist."
    case DirNotFormatted => "directory not properly formatted."
    case RefToFreeInode => "inode referred to in directory but marked free."
    case MarkedFreeInBitmap => "address used by inode but marked free in bitmap."
    case DirectAddrReused => "direct address used more than once."
    case IndirectAddrReused => "indirect address used more than once."
    case BitmapMarksUnused => "bitmap marks block in use but it is not in use."
    case InodeNotInDirectory => "inode marked use but not found in a directory."
    case BadFileRefCount => "bad reference count for file."
    case DirAppearsTwice => " directory appears more than once in file system."
  }

  datatype Result<T> = Ok(value: T) | Err(error: FsError) {
    predicate IsFailure() { Err? }
    function PropagateFailure<U>(): Result<U>
      requires Err?
    {
      Err(error)
    }
    function Extract(): T
      requires Ok?
    {
      value
    }
  }

  /** How a block was reached (the `type` field of a usage record). */
  datatype AddrKind = Unset | DirectAddr | IndirectAddr

  /** Derived usage record of one block. */
  datatype Datablock = Datablock(bitset: bool, usecount: nat, inode: nat, kind: AddrKind)

  /** Derived state record of one inode. */
  datatype InodeUse = InodeUse(inuse: bool, refcount: nat, parentinode: nat)

  /** The two derived tables, indexed by block number and by inode number. */
  datatype Tables = Tables(dblocks: seq<Datablock>, inodes: seq<InodeUse>)

  const FreeBlock := Datablock(false, 0, 0, Unset)
  const UnusedInode := InodeUse(false, 0, 0)

  /** Both tables zeroed, sized from the superblock. */
  function InitialTables(sb: Superblock): Tables
  {
    Tables(seq(sb.size, _ => FreeBlock), seq(sb.ninodes, _ => UnusedInode))
  }

  // ---------------------------------------------------------------------
  // Type and address checks

  predicate ValidType(t: int)
  {
    t == 0 || t == T_DIR || t == T_FILE || t == T_DEV
  }

  function Indirect(ino: DInode): nat
    requires |ino.addrs| == NDIRECT + 1
  {
    ino.addrs[NDIRECT]
  }

  predicate DirectAddrsInRange(ino: DInode, size: nat)
    requires |ino.addrs| == NDIRECT + 1
  {
    forall s :: 0 <= s < NDIRECT ==> ino.addrs[s] < size
  }

  /** Every non-zero entry of indirect block `ind` is below `size`. */
  predicate IndirectEntriesInRange(img: Image, ind: nat, size: nat)
  {
    forall x :: 0 <= x < NINDIRECT ==> IndirectEntry(img, ind, x) == 0 || IndirectEntry(img, ind, x) < size
  }

  /** The address check of an in-use inode: direct addresses first, then
      the indirect address, then the entries of the indirect block. */
  function AddressCheck(img: Image, ino: DInode): Result<()>
    requires |ino.addrs| == NDIRECT + 1
  {
    if !DirectAddrsInRange(ino, img.sb.size) then Err(BadDirectAddress)
    else if Indirect(ino) >= img.sb.size then Err(BadIndirectAddress)
    else if Indirect(ino) != 0 && !IndirectEntriesInRange(img, Indirect(ino), img.sb.size) then Err(BadIndirectAddress)
    else Ok(())
  }

  // ---------------------------------------------------------------------
  // Root directory check

  /** Number of directory entries the size field covers. */
  function EntryCount(ino: DInode): nat
  {
    ino.size / DIRENT_SIZE
  }

  /** Entry `i` as the root check reads it: contiguously from `addrs[0]`. */
  function RootEntry(img: Image, ino: DInode, i: nat): DirEnt
    requires |ino.addrs| == NDIRECT + 1
  {
    DirEntAt(img, GetBlock(ino.addrs[0]) + i * DIRENT_SIZE)
  }

  predicate RootParentIsSelf(img: Image, ino: DInode)
    requires |ino.addrs| == NDIRECT + 1
  {
    exists i :: 0 <= i < EntryCount(ino) && IsDotDot(RootEntry(img, ino, i)) && RootEntry(img, ino, i).inum == ROOTINO
  }

  // ---------------------------------------------------------------------
  // Directory walk

  /** The block named by the first word of the indirect block. */
  function FirstIndirectBlock(img: Image, ino: DInode): nat
    requires |ino.addrs| == NDIRECT + 1
  {
    WordAt(img, GetBlock(Indirect(ino)))
  }

  /** Where the walk reads entry `i`: contiguously from `addrs[0]` for the
      first NDIRECT * DPB entries, then contiguously from the block named
      by the first word of the indirect block. */
  function EntryOffset(img: Image, ino: DInode, i: nat): nat
    requires |ino.addrs| == NDIRECT + 1
  {
    if i < NDIRECT * DPB then GetBlock(ino.addrs[0]) + i * DIRENT_SIZE
    else GetBlock(FirstIndirectBlock(img, ino)) + (i - NDIRECT * DPB) * DIRENT_SIZE
  }

  function Entry(img: Image, ino: DInode, i: nat): DirEnt
    requires |ino.addrs| == NDIRECT + 1
  {
    DirEntAt(img, EntryOffset(img, ino, i))
  }

  /** Where entry `i` lies: the first NDIRECT * DPB entries fill the
      NDIRECT blocks from `addrs[0]` on, DPB to a block, whatever
      `addrs[1..]` hold; the entries after them fill the blocks from the
      one named by the first word of the indirect block on. */
  lemma EntryBlock(img: Image, ino: DInode, i: nat)
    requires |ino.addrs| == NDIRECT + 1
    ensures i < NDIRECT * DPB ==>
              i / DPB < NDIRECT &&
              EntryOffset(img, ino, i) == GetBlock(ino.addrs[0] + i / DPB) + (i % DPB) * DIRENT_SIZE
    ensures i >= NDIRECT * DPB ==>
              EntryOffset(img, ino, i)
              == GetBlock(FirstIndirectBlock(img, ino) + (i - NDIRECT * DPB) / DPB) + ((i - NDIRECT * DPB) % DPB) * DIRENT_SIZE
  {
    if i < NDIRECT * DPB {
      CursorCrossesBlocks(ino.addrs[0], i);
    } else {
      CursorCrossesBlocks(FirstIndirectBlock(img, ino), i - NDIRECT * DPB);
    }
  }

  /** Inode `j` exists and is not free. An inode number past the table is
      treated as naming a free inode. */
  predicate InUse(img: Image, j: nat)
  {
    j < |img.dinodes| && img.dinodes[j].itype != 0
  }

  /** The walk's flags and the inode table it updates. */
  datatype WalkState = WalkState(dot: bool, dotdot: bool, self: bool, inodes: seq<InodeUse>)

  /** The name tests on one entry of directory `k`. */
  function VisitName(w: WalkState, k: nat, e: DirEnt): WalkState
    requires k < |w.inodes|
  {
    WalkState(w.dot || IsDot(e), w.dotdot || IsDotDot(e), w.self || (IsDot(e) && e.inum == k),
              if IsDotDot(e) then w.inodes[k := w.inodes[k].(parentinode := e.inum)] else w.inodes)
  }

  /** Reference bookkeeping for an entry naming in-use inode `e.inum`; while
      the root directory is walked its own count is then forced to 1. */
  function CountRef(inodes: seq<InodeUse>, k: nat, e: DirEnt): seq<InodeUse>
    requires e.inum < |inodes| && k < |inodes|
  {
    var counted := if !IsDot(e) && !IsDotDot(e)
                   then inodes[e.inum := inodes[e.inum].(refcount := inodes[e.inum].refcount + 1)]
                   else inodes;
    if k == ROOTINO then counted[k := counted[k].(refcount := 1)] else counted
  }

  /** One entry of directory `k`: the name tests, the dangling-reference
      check, then the reference bookkeeping. */
  function StepEntry(img: Image, k: nat, w: WalkState, e: DirEnt): (r: Result<WalkState>)
    requires k < |w.inodes| && |w.inodes| == |img.dinodes|
    ensures r.Ok? ==> |r.value.inodes| == |w.inodes|
  {
    var w1 := VisitName(w, k, e);
    if e.inum == 0 then Ok(w1)
    else if !InUse(img, e.inum) then Err(RefToFreeInode)
    else Ok(w1.(inodes := CountRef(w1.inodes, k, e)))
  }

  /** The entries the walk of directory `ino` reads, in order. */
  function Entries(img: Image, ino: DInode): seq<DirEnt>
    requires |ino.addrs| == NDIRECT + 1
  {
    seq(EntryCount(ino), i requires 0 <= i < EntryCount(ino) => Entry(img, ino, i))
  }

  /** `es[i..]` are the entries the walk of `ino` reads from entry `i` on. */
  ghost predicate EntriesFrom(img: Image, ino: DInode, es: seq<DirEnt>, i: nat)
    requires |ino.addrs| == NDIRECT + 1
    decreases |es| - i
  {
    i >= |es| || (es[i] == Entry(img, ino, i) && EntriesFrom(img, ino, es, i + 1))
  }

  lemma {:induction false} EntriesAgree(img: Image, ino: DInode, i: nat)
    requires |ino.addrs| == NDIRECT + 1
    ensures EntriesFrom(img, ino, Entries(img, ino), i)
    decreases EntryCount(ino) - i
  {
    if i < EntryCount(ino) {
      EntriesAgree(img, ino, i + 1);
    }
  }

  lemma {:induction false} EntryAt(img: Image, ino: DInode, es: seq<DirEnt>, j: nat, i: nat)
    requires |ino.addrs| == NDIRECT + 1
    requires EntriesFrom(img, ino, es, j) && j <= i < |es|
    ensures es[i] == Entry(img, ino, i)
    decreases i - j
  {
    if j < i {
      EntryAt(img, ino, es, j + 1, i);
    }
  }

  /** The entry loop of the walk of directory `k` over its entries `es`,
      from entry `i` on. */
  function WalkFrom(img: Image, k: nat, es: seq<DirEnt>, i: nat, w: WalkState): (r: Result<WalkState>)
    requires i <= |es| && k < |w.inodes| && |w.inodes| == |img.dinodes|
    ensures r.Ok? ==> |r.value.inodes| == |w.inodes|
    decreases |es| - i, 1
  {
    if i == |es| then Ok(w) else WalkEntryThen(img, k, es, i, w)
  }

  /** Entry `i` of the walk, then the rest of the walk. */
  function WalkEntryThen(img: Image, k: nat, es: seq<DirEnt>, i: nat, w: WalkState): (r: Result<WalkState>)
    requires i < |es| && k < |w.inodes| && |w.inodes| == |img.dinodes|
    ensures r.Ok? ==> |r.value.inodes| == |w.inodes|
    decreases |es| - i, 0
  {
    var w' :- StepEntry(img, k, w, es[i]);
    WalkFrom(img, k, es, i + 1, w')
  }

  /** The whole walk of directory `k`, then the shape check. */
  function DirCheck(img: Image, k: nat, inodes: seq<InodeUse>): Result<seq<InodeUse>>
    requires WellFormed(img) && k < |img.dinodes| && |inodes| == |img.dinodes|
  {
    var w :- WalkFrom(img, k, Entries(img, img.dinodes[k]), 0, WalkState(false, false, false, inodes));
    if !w.dotdot || !w.dot || !w.self then Err(DirNotFormatted) else Ok(w.inodes)
  }

  // ---------------------------------------------------------------------
  // Block usage bookkeeping

  /** One address the inode claims, with the kind recorded for it and the
      error a second claim raises. */
  datatype Slot = Slot(addr: nat, kind: AddrKind, dup: FsError)

  /** The addresses an in-use inode claims, in the order they are visited:
      the direct addresses, then (when the indirect address is non-zero)
      the indirect block itself and its entries. Entries of the indirect
      block are recorded as DirectAddr. */
  function ClaimSlots(img: Image, ino: DInode): seq<Slot>
    requires |ino.addrs| == NDIRECT + 1
  {
    DirectSlots(ino)
    + (if Indirect(ino) == 0 then []
       else [Slot(Indirect(ino), IndirectAddr, IndirectAddrReused)] + EntrySlots(img, Indirect(ino)))
  }

  /** The claims of the direct addresses. */
  function DirectSlots(ino: DInode): seq<Slot>
    requires |ino.addrs| == NDIRECT + 1
  {
    seq(NDIRECT, s requires 0 <= s < NDIRECT => Slot(ino.addrs[s], DirectAddr, DirectAddrReused))
  }

  /** The claims of the addresses held by indirect block `ind`. */
  function EntrySlots(img: Image, ind: nat): seq<Slot>
  {
    seq(NINDIRECT, (x: nat) => Slot(IndirectEntry(img, ind, x), DirectAddr, IndirectAddrReused))
  }

  /** Every slot names a block inside a usage table of `n` entries. */
  predicate SlotsFit(slots: seq<Slot>, n: nat)
  {
    forall s :: 0 <= s < |slots| ==> slots[s].addr < n
  }

  /** Claims one slot for inode `k`: a zero address is skipped; a block
      whose bitmap bit is clear fails, then a block already claimed fails;
      otherwise the block is recorded as used once, by `k`, as `kind`. */
  function ClaimSlot(img: Image, k: nat, s: Slot, d: seq<Datablock>): (r: Result<seq<Datablock>>)
    requires s.addr < |d|
    ensures r.Ok? ==> |r.value| == |d|
  {
    var a := s.addr;
    if a == 0 then Ok(d)
    else if !IsBlockUsed(img, a) then Err(MarkedFreeInBitmap)
    else if d[a].usecount + 1 > 1 then Err(s.dup)
    else Ok(d[a := Datablock(true, d[a].usecount + 1, k, s.kind)])
  }

  /** Claims slots `i..` for inode `k`, in order, stopping at the first error. */
  function ClaimFrom(img: Image, k: nat, slots: seq<Slot>, i: nat, d: seq<Datablock>): (r: Result<seq<Datablock>>)
    requires i <= |slots| && SlotsFit(slots, |d|)
    ensures r.Ok? ==> |r.value| == |d|
    decreases |slots| - i, 1
  {
    if i == |slots| then Ok(d) else ClaimSlotThen(img, k, slots, i, d)
  }

  /** Claims slot `i`, then the slots after it. */
  function ClaimSlotThen(img: Image, k: nat, slots: seq<Slot>, i: nat, d: seq<Datablock>): (r: Result<seq<Datablock>>)
    requires i < |slots| && SlotsFit(slots, |d|)
    ensures r.Ok? ==> |r.value| == |d|
    decreases |slots| - i, 0
  {
    var d' :- ClaimSlot(img, k, slots[i], d);
    ClaimFrom(img, k, slots, i + 1, d')
  }

  /** Claiming `a + b` from position `i` claims the rest of `a`, then all of
      `b` in the table that leaves, and stops at the first error. */
  lemma {:induction false} ClaimFromAppend(img: Image, k: nat, a: seq<Slot>, b: seq<Slot>, i: nat, d: seq<Datablock>)
    requires i <= |a| + |b| && SlotsFit(a, |d|) && SlotsFit(b, |d|)
    ensures SlotsFit(a + b, |d|)
    ensures ClaimFrom(img, k, a + b, i, d)
            == if i >= |a| then ClaimFrom(img, k, b, i - |a|, d)
               else match ClaimFrom(img, k, a, i, d)
                    case Ok(d1) => ClaimFrom(img, k, b, 0, d1)
                    case Err(e) => Err(e)
    decreases |a| + |b| - i
  {
    SlotsFitAppend(a, b, |d|);
    if i == |a| + |b| {
    } else if i >= |a| {
      assert (a + b)[i] == b[i - |a|];
      assert ClaimFrom(img, k, a + b, i, d) == ClaimSlotThen(img, k, a + b, i, d);
      assert ClaimFrom(img, k, b, i - |a|, d) == ClaimSlotThen(img, k, b, i - |a|, d);
      match ClaimSlot(img, k, b[i - |a|], d)
      case Err(e) =>
      case Ok(d') => ClaimFromAppend(img, k, a, b, i + 1, d');
    } else {
      assert (a + b)[i] == a[i];
      assert ClaimFrom(img, k, a + b, i, d) == ClaimSlotThen(img, k, a + b, i, d);
      assert ClaimFrom(img, k, a, i, d) == ClaimSlotThen(img, k, a, i, d);
      match ClaimSlot(img, k, a[i], d)
      case Err(e) =>
      case Ok(d') =>
        ClaimFromAppend(img, k, a, b, i + 1, d');
        assert ClaimFrom(img, k, a, i, d) == ClaimFrom(img, k, a, i + 1, d');
        if i + 1 == |a| {
          assert ClaimFrom(img, k, a, i + 1, d') == Ok(d');
        }
    }
  }

  /** The claims of an inode in three stages, as the checker makes them:
      the direct addresses, then the indirect block, then its entries. */
  function ClaimInStages(img: Image, k: nat, ino: DInode, d: seq<Datablock>): Result<seq<Datablock>>
    requires |ino.addrs| == NDIRECT + 1 && SlotsFit(DirectSlots(ino), |d|)
    requires Indirect(ino) != 0 ==> Indirect(ino) < |d| && SlotsFit(EntrySlots(img, Indirect(ino)), |d|)
  {
    var d1 :- ClaimFrom(img, k, DirectSlots(ino), 0, d);
    if Indirect(ino) == 0 then Ok(d1)
    else
      var d2 :- ClaimSlot(img, k, Slot(Indirect(ino), IndirectAddr, IndirectAddrReused), d1);
      ClaimFrom(img, k, EntrySlots(img, Indirect(ino)), 0, d2)
  }

  /** Claiming in stages is claiming the slots in order. */
  lemma ClaimStages(img: Image, k: nat, ino: DInode, d: seq<Datablock>)
    requires |ino.addrs| == NDIRECT + 1 && SlotsFit(DirectSlots(ino), |d|)
    requires Indirect(ino) != 0 ==> Indirect(ino) < |d| && SlotsFit(EntrySlots(img, Indirect(ino)), |d|)
    ensures SlotsFit(ClaimSlots(img, ino), |d|)
    ensures ClaimFrom(img, k, ClaimSlots(img, ino), 0, d) == ClaimInStages(img, k, ino, d)
  {
    var ds := DirectSlots(ino);
    if Indirect(ino) == 0 {
      assert ClaimSlots(img, ino) == ds + [];
      ClaimFromAppend(img, k, ds, [], 0, d);
    } else {
      var one := [Slot(Indirect(ino), IndirectAddr, IndirectAddrReused)];
      var es := EntrySlots(img, Indirect(ino));
      assert ClaimSlots(img, ino) == ds + (one + es);
      ClaimFromAppend(img, k, one, es, 0, d);
      ClaimFromAppend(img, k, ds, one + es, 0, d);
      match ClaimFrom(img, k, ds, 0, d)
      case Err(e) =>
      case Ok(d1) =>
        ClaimFromAppend(img, k, one, es, 0, d1);
        assert ClaimFrom(img, k, one, 0, d1) == ClaimSlotThen(img, k, one, 0, d1);
        match ClaimSlot(img, k, one[0], d1)
        case Err(e) =>
        case Ok(d2) => assert ClaimFrom(img, k, one, 1, d2) == Ok(d2);
    }
  }

  /** Once the address check passed, every claimed address indexes the
      usage table. */
  lemma SlotsInRange(img: Image, ino: DInode)
    requires |ino.addrs| == NDIRECT + 1 && AddressCheck(img, ino).Ok?
    ensures SlotsFit(ClaimSlots(img, ino), img.sb.size)
    ensures SlotsFit(DirectSlots(ino), img.sb.size)
    ensures Indirect(ino) != 0 ==> Indirect(ino) < img.sb.size && SlotsFit(EntrySlots(img, Indirect(ino)), img.sb.size)
  {
    var n := img.sb.size;
    assert SlotsFit(DirectSlots(ino), n);
    if Indirect(ino) == 0 {
      assert ClaimSlots(img, ino) == DirectSlots(ino) + [];
      SlotsFitAppend(DirectSlots(ino), [], n);
    } else {
      var es := EntrySlots(img, Indirect(ino));
      assert SlotsFit(es, n) by {
        forall x | 0 <= x < |es| ensures es[x].addr < n {
          assert es[x].addr == IndirectEntry(img, Indirect(ino), x);
        }
      }
      var one := [Slot(Indirect(ino), IndirectAddr, IndirectAddrReused)];
      SlotsFitAppend(one, es, n);
      SlotsFitAppend(DirectSlots(ino), one + es, n);
    }
  }

  lemma SlotsFitAppend(a: seq<Slot>, b: seq<Slot>, n: nat)
    requires SlotsFit(a, n) && SlotsFit(b, n)
    ensures SlotsFit(a + b, n)
  {
    forall s | 0 <= s < |a + b| ensures (a + b)[s].addr < n {
      if s < |a| { assert (a + b)[s] == a[s]; } else { assert (a + b)[s] == b[s - |a|]; }
    }
  }

  // ---------------------------------------------------------------------
  // The forward pass

  /** All checks of inode `k`, in the order the forward pass runs them. */
  function InodeStep(img: Image, k: nat, t: Tables): (r: Result<Tables>)
    requires WellFormed(img) && k < |img.dinodes|
    requires |t.dblocks| == img.sb.size && |t.inodes| == |img.dinodes|
    ensures r.Ok? ==> |r.value.dblocks| == |t.dblocks| && |r.value.inodes| == |t.inodes|
  {
    var ino := img.dinodes[k];
    if !ValidType(ino.itype) then Err(BadInode)
    else if ino.itype != 0 && AddressCheck(img, ino).Err? then Err(AddressCheck(img, ino).error)
    else if k == ROOTINO && !(ino.itype == T_DIR && RootParentIsSelf(img, ino)) then Err(RootDirMissing)
    else
      var inodes1 := if ino.itype != 0 then t.inodes[k := t.inodes[k].(inuse := true)] else t.inodes;
      var inodes2 :- if ino.itype == T_DIR then DirCheck(img, k, inodes1) else Ok(inodes1);
      if ino.itype == 0 then Ok(Tables(t.dblocks, inodes2))
      else
        SlotsInRange(img, ino);
        var dblocks :- ClaimFrom(img, k, ClaimSlots(img, ino), 0, t.dblocks);
        Ok(Tables(dblocks, inodes2))
  }

  /** The forward pass from inode `k` on. */
  function Forward(img: Image, k: nat, t: Tables): (r: Result<Tables>)
    requires WellFormed(img) && k <= |img.dinodes|
    requires |t.dblocks| == img.sb.size && |t.inodes| == |img.dinodes|
    ensures r.Ok? ==> |r.value.dblocks| == |t.dblocks| && |r.value.inodes| == |t.inodes|
    decreases |img.dinodes| - k, 1
  {
    if k == |img.dinodes| then Ok(t) else ForwardThen(img, k, t)
  }

  /** Inode `k`, then the forward pass from inode `k + 1` on. */
  function ForwardThen(img: Image, k: nat, t: Tables): (r: Result<Tables>)
    requires WellFormed(img) && k < |img.dinodes|
    requires |t.dblocks| == img.sb.size && |t.inodes| == |img.dinodes|
    ensures r.Ok? ==> |r.value.dblocks| == |t.dblocks| && |r.value.inodes| == |t.inodes|
    decreases |img.dinodes| - k, 0
  {
    var t' :- InodeStep(img, k, t);
    Forward(img, k + 1, t')
  }

  // ---------------------------------------------------------------------
  // Bitmap sweep

  /** First block after the boot block, superblock, inode blocks and bitmap
      blocks, as the checker computes it. */
  function DataStart(sb: Superblock): nat
  {
    3 + sb.ninodes / IPB + sb.nblocks / BPB + 1
  }

  /** No block from DataStart to the last block is marked in the bitmap
      without being claimed. */
  predicate BitmapBacked(img: Image, d: seq<Datablock>)
    requires |d| == img.sb.size
  {
    forall b :: DataStart(img.sb) <= b < img.sb.size ==> !IsBlockUsed(img, b) || d[b].usecount != 0
  }

  // ---------------------------------------------------------------------
  // Reconciliation

  /** Reconciliation from inode `j` on: orphan, then file link count, then
      directory named twice. */
  function ReconcileFrom(img: Image, inodes: seq<InodeUse>, j: nat): Result<()>
    requires WellFormed(img) && |inodes| == |img.dinodes|
    decreases |inodes| - j
  {
    if j >= |inodes| then Ok(())
    else if inodes[j].inuse && inodes[j].refcount < 1 then Err(InodeNotInDirectory)
    else if img.dinodes[j].itype == T_FILE && img.dinodes[j].nlink != inodes[j].refcount then Err(BadFileRefCount)
    else if img.dinodes[j].itype == T_DIR && inodes[j].refcount > 1 then Err(DirAppearsTwice)
    else ReconcileFrom(img, inodes, j + 1)
  }

  // ---------------------------------------------------------------------
  // The whole checker

  /** The three passes; on success, the derived tables. */
  function Fsck(img: Image): Result<Tables>
    requires WellFormed(img)
  {
    var t :- Forward(img, 0, InitialTables(img.sb));
    if !BitmapBacked(img, t.dblocks) then Err(BitmapMarksUnused)
    else
      match ReconcileFrom(img, t.inodes, 1)
      case Err(e) => Err(e)
      case Ok(_) => Ok(t)
  }
}
