/** The checker as the program runs it: the two derived tables are arrays
    updated in place by the loops of the forward pass, then read by the
    bitmap sweep and the reconciliation. Each method is proved to compute
    what the matching function of FsSpec describes. */
module FsCheck {
  import opened FsLayout
  import opened FsImage
  import opened FsSpec

  /** A method's outcome `r` and the table `now` it leaves agree with the
      specification's result `spec`: on success the table is the specified
      one, on failure the error is the specified one. */
  predicate Agrees<T(==)>(r: Result<()>, spec: Result<T>, now: T)
  {
    match spec
    case Ok(v) => r == Ok(()) && now == v
    case Err(e) => r == Err(e)
  }

  /** Check 2: every direct address and the indirect address are below
      `size`, and so is every non-zero entry of the indirect block. */
  method ValidateAddresses(img: Image, ino: DInode) returns (r: Result<()>)
    requires |ino.addrs| == NDIRECT + 1
    ensures r == AddressCheck(img, ino)
  {
    var size := img.sb.size;
    var b := 0;
    while b < NDIRECT
      invariant 0 <= b <= NDIRECT
      invariant forall s :: 0 <= s < b ==> ino.addrs[s] < size
    {
      if ino.addrs[b] >= size {
        return Err(BadDirectAddress);
      }
      b := b + 1;
    }
    var indirectblocknum := ino.addrs[NDIRECT];
    if indirectblocknum >= size {
      return Err(BadIndirectAddress);
    }
    if indirectblocknum != 0 {
      var index := 0;
      while index < NINDIRECT
        invariant 0 <= index <= NINDIRECT
        invariant forall x :: 0 <= x < index ==>
                    IndirectEntry(img, indirectblocknum, x) == 0 || IndirectEntry(img, indirectblocknum, x) < size
      {
        var entry := IndirectEntry(img, indirectblocknum, index);
        if entry != 0 && entry >= size {
          return Err(BadIndirectAddress);
        }
        index := index + 1;
      }
    }
    return Ok(());
  }

  /** Check 3: among the entries read contiguously from `addrs[0]`, one is
      ".." naming the root itself. */
  method CheckRootDir(img: Image, ino: DInode) returns (parentisitself: bool)
    requires |ino.addrs| == NDIRECT + 1
    ensures parentisitself == RootParentIsSelf(img, ino)
  {
    parentisitself := false;
    var de: nat := GetBlock(ino.addrs[0]);
    var n := ino.size / DIRENT_SIZE;
    var i := 0;
    while i < n
      invariant 0 <= i <= n && !parentisitself
      invariant de == GetBlock(ino.addrs[0]) + i * DIRENT_SIZE
      invariant forall j :: 0 <= j < i ==> !(IsDotDot(RootEntry(img, ino, j)) && RootEntry(img, ino, j).inum == ROOTINO)
    {
      var e := DirEntAt(img, de);
      if IsDotDot(e) && e.inum == ROOTINO {
        parentisitself := true;
        assert RootEntry(img, ino, i) == e;
        break;
      }
      i := i + 1;
      de := de + DIRENT_SIZE;
    }
  }

  /** Check 4 with the bookkeeping for checks 9 to 12: walks the entries of
      directory `inum`, records its parent, counts references and fails on
      an entry naming a free inode or on a missing "." or "..". */
  method WalkDirectory(img: Image, inum: nat, inodes: array<InodeUse>) returns (r: Result<()>)
    requires WellFormed(img) && inum < |img.dinodes| && inodes.Length == |img.dinodes|
    modifies inodes
    ensures Agrees(r, DirCheck(img, inum, old(inodes[..])), inodes[..])
  {
    var dotfound, doubledotfound, ptstoitself;
    ghost var es := Entries(img, img.dinodes[inum]);
    EntriesAgree(img, img.dinodes[inum], 0);
    r, dotfound, doubledotfound, ptstoitself := WalkEntries(img, inum, es, inodes);
    if r.Err? {
      return;
    }
    if !doubledotfound || !dotfound || !ptstoitself {
      return Err(DirNotFormatted);
    }
    return Ok(());
  }

  /** The entry loop of the walk of directory `inum`: returns the flags for
      ".", ".." and "." naming the directory itself. */
  method WalkEntries(img: Image, inum: nat, ghost es: seq<DirEnt>, inodes: array<InodeUse>)
    returns (r: Result<()>, dotfound: bool, doubledotfound: bool, ptstoitself: bool)
    requires WellFormed(img) && inum < |img.dinodes| && inodes.Length == |img.dinodes|
    requires |es| == EntryCount(img.dinodes[inum]) && EntriesFrom(img, img.dinodes[inum], es, 0)
    modifies inodes
    ensures match WalkFrom(img, inum, es, 0, WalkState(false, false, false, old(inodes[..])))
            case Ok(w) => r == Ok(()) && w == WalkState(dotfound, doubledotfound, ptstoitself, inodes[..])
            case Err(e) => r == Err(e)
  {
    var ino := img.dinodes[inum];
    dotfound, doubledotfound, ptstoitself := false, false, false;
    var de: nat := GetBlock(ino.addrs[0]);
    var n := ino.size / DIRENT_SIZE;
    var blockstraversed: nat := 0;
    var indblocktraversed := false;
    ghost var outcome := WalkFrom(img, inum, es, 0, WalkState(false, false, false, inodes[..]));
    var i := 0;
    assert Cursor(img, ino, 0) == de;
    while i < n
      invariant 0 <= i <= n
      invariant CursorAt(img, ino, i, de, blockstraversed, indblocktraversed)
      invariant outcome == WalkFrom(img, inum, es, i, WalkState(dotfound, doubledotfound, ptstoitself, inodes[..]))
    {
      var res;
      res, de, blockstraversed, indblocktraversed, dotfound, doubledotfound, ptstoitself
        := WalkEntry(img, inum, es, i, inodes, de, blockstraversed, indblocktraversed, dotfound, doubledotfound, ptstoitself);
      if res.Err? {
        return res, dotfound, doubledotfound, ptstoitself;
      }
      i := i + 1;
      de := de + DIRENT_SIZE;
    }
    r := Ok(());
  }

  /** One pass of the walk's entry loop, for entry `i`: moves the cursor,
      reads the entry and visits it. */
  method WalkEntry(img: Image, inum: nat, ghost es: seq<DirEnt>, i: nat, inodes: array<InodeUse>,
                   de: nat, blockstraversed: nat, indblocktraversed: bool,
                   dotfound: bool, doubledotfound: bool, ptstoitself: bool)
    returns (r: Result<()>, de': nat, blockstraversed': nat, indblocktraversed': bool,
             dotfound': bool, doubledotfound': bool, ptstoitself': bool)
    requires WellFormed(img) && inum < |img.dinodes| && inodes.Length == |img.dinodes|
    requires i < |es| && EntriesFrom(img, img.dinodes[inum], es, 0)
    requires CursorAt(img, img.dinodes[inum], i, de, blockstraversed, indblocktraversed)
    modifies inodes
    ensures r.Ok? ==> CursorAt(img, img.dinodes[inum], i + 1, de' + DIRENT_SIZE, blockstraversed', indblocktraversed')
    ensures WalkFrom(img, inum, es, i, WalkState(dotfound, doubledotfound, ptstoitself, old(inodes[..])))
            == if r.Ok? then WalkFrom(img, inum, es, i + 1, WalkState(dotfound', doubledotfound', ptstoitself', inodes[..]))
               else Err(r.error)
  {
    var ino := img.dinodes[inum];
    EntryAt(img, ino, es, 0, i);
    ghost var w := WalkState(dotfound, doubledotfound, ptstoitself, inodes[..]);
    de', blockstraversed', indblocktraversed' := NextEntry(img, ino, i, de, blockstraversed, indblocktraversed);
    var e := DirEntAt(img, de');
    assert e == es[i];
    r, dotfound', doubledotfound', ptstoitself' := VisitEntry(img, inum, e, inodes, dotfound, doubledotfound, ptstoitself);
    if r.Err? {
      return;
    }
    WalkStep(img, inum, es, i, w, WalkState(dotfound', doubledotfound', ptstoitself', inodes[..]));
    CursorMoves(img, ino, i);
    CursorAdvance(i);
  }

  /** The start of the walk's loop body for entry `i`: counts a new block
      when `i` starts one, and once the counted blocks exceed NDIRECT moves
      the cursor to the block named by the first word of the indirect
      block. The cursor then points at entry `i`. */
  method NextEntry(img: Image, ino: DInode, i: nat, de: nat, blockstraversed: nat, indblocktraversed: bool)
    returns (de': nat, blockstraversed': nat, indblocktraversed': bool)
    requires |ino.addrs| == NDIRECT + 1
    requires blockstraversed == (i + DPB - 1) / DPB
    requires indblocktraversed == (i > NDIRECT * DPB)
    requires de == Cursor(img, ino, i)
    ensures de' == EntryOffset(img, ino, i)
    ensures blockstraversed' == i / DPB + 1
    ensures indblocktraversed' == (i >= NDIRECT * DPB)
  {
    CursorAdvance(i);
    CursorMoves(img, ino, i);
    de', blockstraversed', indblocktraversed' := de, blockstraversed, indblocktraversed;
    if i % DPB == 0 {
      blockstraversed' := blockstraversed' + 1;
    }
    if !indblocktraversed' && blockstraversed' > NDIRECT {
      // switch to the block named by the first word of the indirect block
      var firstblocknum := WordAt(img, GetBlock(ino.addrs[NDIRECT]));
      de' := GetBlock(firstblocknum);
      indblocktraversed' := true;
    }
  }

  /** One successful entry step advances the walk by one entry. */
  lemma WalkStep(img: Image, k: nat, es: seq<DirEnt>, i: nat, w: WalkState, w': WalkState)
    requires i < |es| && k < |w.inodes| && |w.inodes| == |img.dinodes|
    requires StepEntry(img, k, w, es[i]) == Ok(w')
    ensures WalkFrom(img, k, es, i, w) == WalkFrom(img, k, es, i + 1, w')
  {
  }

  /** The body of the walk's entry loop for entry `e` of directory `inum`. */
  method VisitEntry(img: Image, inum: nat, e: DirEnt, inodes: array<InodeUse>,
                    dotfound: bool, doubledotfound: bool, ptstoitself: bool)
    returns (r: Result<()>, dotfound': bool, doubledotfound': bool, ptstoitself': bool)
    requires inum < inodes.Length && inodes.Length == |img.dinodes|
    modifies inodes
    ensures match StepEntry(img, inum, WalkState(dotfound, doubledotfound, ptstoitself, old(inodes[..])), e)
            case Ok(w) => r == Ok(()) && WalkState(dotfound', doubledotfound', ptstoitself', inodes[..]) == w
            case Err(err) => r == Err(err)
  {
    dotfound', doubledotfound', ptstoitself' := dotfound, doubledotfound, ptstoitself;
    if IsDotDot(e) {
      doubledotfound' := true;
      inodes[inum] := inodes[inum].(parentinode := e.inum);
    }
    if IsDot(e) {
      dotfound' := true;
      if e.inum == inum {
        ptstoitself' := true;
      }
    }
    ghost var w1 := WalkState(dotfound', doubledotfound', ptstoitself', inodes[..]);
    assert w1 == VisitName(WalkState(dotfound, doubledotfound, ptstoitself, old(inodes[..])), inum, e);
    // an inode number past the inode table names no in-use inode
    if e.inum != 0 && !InUse(img, e.inum) {
      return Err(RefToFreeInode), dotfound', doubledotfound', ptstoitself';
    }
    if e.inum != 0 && InUse(img, e.inum) {
      if !IsDotDot(e) && !IsDot(e) {
        inodes[e.inum] := inodes[e.inum].(refcount := inodes[e.inum].refcount + 1);
      }
      if inum == ROOTINO {
        inodes[inum] := inodes[inum].(refcount := 1);
      }
      assert inodes[..] == CountRef(w1.inodes, inum, e);
    }
    r := Ok(());
  }

  /** The walk's loop variables before it reads entry `i`: the blocks
      counted so far, whether the jump to the indirect-referenced block has
      happened, and the cursor. */
  ghost predicate CursorAt(img: Image, ino: DInode, i: nat, de: nat, blockstraversed: nat, indblocktraversed: bool)
    requires |ino.addrs| == NDIRECT + 1
  {
    blockstraversed == (i + DPB - 1) / DPB &&
    indblocktraversed == (i > NDIRECT * DPB) &&
    de == Cursor(img, ino, i)
  }

  /** The walk's cursor `de` before it reads entry `i`: the jump to the
      first indirect-referenced block happens while reading entry
      NDIRECT * DPB. */
  ghost function Cursor(img: Image, ino: DInode, i: nat): nat
    requires |ino.addrs| == NDIRECT + 1
  {
    if i <= NDIRECT * DPB then GetBlock(ino.addrs[0]) + i * DIRENT_SIZE
    else GetBlock(FirstIndirectBlock(img, ino)) + (i - NDIRECT * DPB) * DIRENT_SIZE
  }

  lemma CursorMoves(img: Image, ino: DInode, i: nat)
    requires |ino.addrs| == NDIRECT + 1
    ensures i != NDIRECT * DPB ==> Cursor(img, ino, i) == EntryOffset(img, ino, i)
    ensures i == NDIRECT * DPB ==> EntryOffset(img, ino, i) == GetBlock(FirstIndirectBlock(img, ino))
    ensures Cursor(img, ino, i + 1) == EntryOffset(img, ino, i) + DIRENT_SIZE
  {
  }

  /** Arithmetic of the walk's block counter: at entry `i` it has counted
      `i / DPB + 1` blocks, and it exceeds NDIRECT from entry NDIRECT * DPB on. */
  lemma CursorAdvance(i: nat)
    ensures (if i % DPB == 0 then (i + DPB - 1) / DPB + 1 else (i + DPB - 1) / DPB) == i / DPB + 1
    ensures (i + 1 + DPB - 1) / DPB == i / DPB + 1
    ensures (i / DPB + 1 > NDIRECT) == (i >= NDIRECT * DPB)
  {
  }

  /** Checks 5, 7 and 8: claims the blocks of in-use inode `inum` in the
      usage table, failing on a block whose bitmap bit is clear or that is
      already claimed. */
  method ClaimBlocks(img: Image, inum: nat, dblocks: array<Datablock>) returns (r: Result<()>)
    requires WellFormed(img) && inum < |img.dinodes| && dblocks.Length == img.sb.size
    requires AddressCheck(img, img.dinodes[inum]).Ok?
    modifies dblocks
    ensures (SlotsInRange(img, img.dinodes[inum]);
             Agrees(r, ClaimFrom(img, inum, ClaimSlots(img, img.dinodes[inum]), 0, old(dblocks[..])), dblocks[..]))
  {
    var ino := img.dinodes[inum];
    SlotsInRange(img, ino);
    ClaimStages(img, inum, ino, dblocks[..]);
    r := ClaimDirect(img, inum, dblocks);
    if r.Err? {
      return;
    }
    var indirectblocknum := ino.addrs[NDIRECT];
    if indirectblocknum != 0 {
      r := ClaimAddress(img, inum, Slot(indirectblocknum, IndirectAddr, IndirectAddrReused), dblocks);
      if r.Err? {
        return;
      }
      r := ClaimEntries(img, inum, indirectblocknum, dblocks);
    }
  }

  /** Checks 5, 7 and 8 for the direct addresses of inode `inum`. */
  method ClaimDirect(img: Image, inum: nat, dblocks: array<Datablock>) returns (r: Result<()>)
    requires WellFormed(img) && inum < |img.dinodes|
    requires SlotsFit(DirectSlots(img.dinodes[inum]), dblocks.Length)
    modifies dblocks
    ensures Agrees(r, ClaimFrom(img, inum, DirectSlots(img.dinodes[inum]), 0, old(dblocks[..])), dblocks[..])
  {
    var ino := img.dinodes[inum];
    ghost var slots := DirectSlots(ino);
    ghost var d0 := dblocks[..];
    var b := 0;
    while b < NDIRECT
      invariant 0 <= b <= NDIRECT
      invariant ClaimFrom(img, inum, slots, 0, d0) == ClaimFrom(img, inum, slots, b, dblocks[..])
    {
      var blocknum := ino.addrs[b];
      assert slots[b] == Slot(blocknum, DirectAddr, DirectAddrReused);
      if blocknum != 0 {
        r := ClaimDirectAddress(img, inum, blocknum, dblocks);
        if r.Err? {
          return;
        }
      }
      b := b + 1;
    }
    return Ok(());
  }

  /** The body of the direct-address loop for non-zero `blocknum`: the use
      count and owner are recorded first, then the bitmap bit is tested
      with the mask the checker builds, then the duplicate check. */
  method ClaimDirectAddress(img: Image, inum: nat, blocknum: nat, dblocks: array<Datablock>) returns (r: Result<()>)
    requires 0 < blocknum < dblocks.Length
    modifies dblocks
    ensures Agrees(r, ClaimSlot(img, inum, Slot(blocknum, DirectAddr, DirectAddrReused), old(dblocks[..])), dblocks[..])
  {
    ghost var before := dblocks[..];
    dblocks[blocknum] := dblocks[blocknum].(usecount := dblocks[blocknum].usecount + 1,
                                            inode := inum, kind := DirectAddr);
    var bmapblocknum := BBlock(blocknum, img.sb.ninodes);
    var bmapbit := blocknum % BPB;
    var bmap := GetBlock(bmapblocknum);
    var m := (1 as bv8) << (bmapbit % 8);
    assert (Bits(ByteAt(img, bmap + bmapbit / 8)) & m == 0) == !IsBlockUsed(img, blocknum);
    if Bits(ByteAt(img, bmap + bmapbit / 8)) & m == 0 {
      return Err(MarkedFreeInBitmap);
    }
    dblocks[blocknum] := dblocks[blocknum].(bitset := true);
    if dblocks[blocknum].usecount > 1 {
      return Err(DirectAddrReused);
    }
    assert dblocks[..] == before[blocknum := Datablock(true, before[blocknum].usecount + 1, inum, DirectAddr)];
    return Ok(());
  }

  /** Checks 7 and 8 for the addresses held by indirect block `ind`. */
  method ClaimEntries(img: Image, inum: nat, ind: nat, dblocks: array<Datablock>) returns (r: Result<()>)
    requires SlotsFit(EntrySlots(img, ind), dblocks.Length)
    modifies dblocks
    ensures Agrees(r, ClaimFrom(img, inum, EntrySlots(img, ind), 0, old(dblocks[..])), dblocks[..])
  {
    ghost var slots := EntrySlots(img, ind);
    ghost var d0 := dblocks[..];
    var index := 0;
    while index < NINDIRECT
      invariant 0 <= index <= NINDIRECT
      invariant ClaimFrom(img, inum, slots, 0, d0) == ClaimFrom(img, inum, slots, index, dblocks[..])
    {
      var entry := IndirectEntry(img, ind, index);
      assert slots[index] == Slot(entry, DirectAddr, IndirectAddrReused);
      if entry != 0 {
        r := ClaimAddress(img, inum, Slot(entry, DirectAddr, IndirectAddrReused), dblocks);
        if r.Err? {
          return;
        }
      }
      index := index + 1;
    }
    return Ok(());
  }

  /** Claims one non-zero address for inode `inum`, as the checker does for
      the indirect block and each address it holds. */
  method ClaimAddress(img: Image, inum: nat, s: Slot, dblocks: array<Datablock>) returns (r: Result<()>)
    requires 0 < s.addr < dblocks.Length
    modifies dblocks
    ensures Agrees(r, ClaimSlot(img, inum, s, old(dblocks[..])), dblocks[..])
  {
    if !IsBlockUsed(img, s.addr) {
      return Err(MarkedFreeInBitmap);
    }
    dblocks[s.addr] := Datablock(true, dblocks[s.addr].usecount + 1, inum, s.kind);
    if dblocks[s.addr].usecount > 1 {
      return Err(s.dup);
    }
    return Ok(());
  }

  /** All checks of inode `inum` in the forward pass. */
  method CheckInode(img: Image, inum: nat, dblocks: array<Datablock>, inodes: array<InodeUse>) returns (r: Result<()>)
    requires WellFormed(img) && inum < |img.dinodes|
    requires dblocks.Length == img.sb.size && inodes.Length == |img.dinodes|
    modifies dblocks, inodes
    ensures match InodeStep(img, inum, Tables(old(dblocks[..]), old(inodes[..])))
            case Ok(t) => r == Ok(()) && dblocks[..] == t.dblocks && inodes[..] == t.inodes
            case Err(e) => r == Err(e)
  {
    var ino := img.dinodes[inum];
    // check 1
    if ino.itype != 0 && ino.itype != T_DIR && ino.itype != T_FILE && ino.itype != T_DEV {
      return Err(BadInode);
    }
    // check 2
    if ino.itype != 0 {
      inodes[inum] := inodes[inum].(inuse := true);
      r := ValidateAddresses(img, ino);
      if r.Err? {
        return;
      }
    }
    ghost var inodes1 := inodes[..];
    // check 3
    if inum == ROOTINO {
      if ino.itype != T_DIR {
        return Err(RootDirMissing);
      }
      var parentisitself := CheckRootDir(img, ino);
      if !parentisitself {
        return Err(RootDirMissing);
      }
    }
    // check 4
    if ino.itype == T_DIR {
      r := WalkDirectory(img, inum, inodes);
      if r.Err? {
        return;
      }
    }
    // checks 5, 7, 8
    if ino.itype != 0 {
      r := ClaimBlocks(img, inum, dblocks);
      if r.Err? {
        return;
      }
    }
    return Ok(());
  }

  /** Check 6: every block from the first data block on whose bitmap bit is
      set has been claimed. */
  method SweepBitmap(img: Image, dblocks: array<Datablock>) returns (r: Result<()>)
    requires dblocks.Length == img.sb.size
    ensures r == if BitmapBacked(img, dblocks[..]) then Ok(()) else Err(BitmapMarksUnused)
  {
    var bitmapblocknum := 3 + img.sb.ninodes / IPB;
    var bmcount := img.sb.nblocks / BPB + 1;
    var datablockstart := bitmapblocknum + bmcount;
    var bnum := datablockstart;
    while bnum < img.sb.size
      invariant datablockstart <= bnum
      invariant forall b :: datablockstart <= b < bnum && b < img.sb.size ==>
                  !IsBlockUsed(img, b) || dblocks[b].usecount != 0
    {
      if IsBlockUsed(img, bnum) && dblocks[bnum].usecount == 0 {
        return Err(BitmapMarksUnused);
      }
      bnum := bnum + 1;
    }
    return Ok(());
  }

  /** Checks 9, 11 and 12 over inodes 1 to ninodes - 1. */
  method ReconcileRefs(img: Image, inodes: array<InodeUse>) returns (r: Result<()>)
    requires WellFormed(img) && inodes.Length == |img.dinodes|
    ensures r == ReconcileFrom(img, inodes[..], 1)
  {
    var inum := 1;
    while inum < inodes.Length
      invariant 1 <= inum
      invariant ReconcileFrom(img, inodes[..], 1) == ReconcileFrom(img, inodes[..], inum)
    {
      var ino := img.dinodes[inum];
      if inodes[inum].inuse && inodes[inum].refcount < 1 {
        return Err(InodeNotInDirectory);
      }
      if ino.itype == T_FILE && ino.nlink != inodes[inum].refcount {
        return Err(BadFileRefCount);
      }
      if ino.itype == T_DIR && inodes[inum].refcount > 1 {
        return Err(DirAppearsTwice);
      }
      inum := inum + 1;
    }
    return Ok(());
  }

  /** The checker: the forward pass over all inodes, the bitmap sweep and
      the reconciliation, stopping at the first violation. */
  method CheckImage(img: Image) returns (r: Result<Tables>)
    requires WellFormed(img)
    ensures r == Fsck(img)
  {
    var dblocks := new Datablock[img.sb.size](_ => FreeBlock);
    var inodes := new InodeUse[img.sb.ninodes](_ => UnusedInode);
    assert Tables(dblocks[..], inodes[..]) == InitialTables(img.sb);
    var inum := 0;
    while inum < img.sb.ninodes
      invariant 0 <= inum <= img.sb.ninodes
      invariant Forward(img, 0, InitialTables(img.sb)) == Forward(img, inum, Tables(dblocks[..], inodes[..]))
    {
      var res := CheckInode(img, inum, dblocks, inodes);
      if res.Err? {
        return Err(res.error);
      }
      inum := inum + 1;
    }
    var swept := SweepBitmap(img, dblocks);
    if swept.Err? {
      return Err(swept.error);
    }
    var reconciled := ReconcileRefs(img, inodes);
    if reconciled.Err? {
      return Err(reconciled.error);
    }
    return Ok(Tables(dblocks[..], inodes[..]));
  }
}
