/** What a passing run of the checker guarantees about the image: the
    facts each pass checks, gathered over all inodes and blocks, and what
    the derived tables then hold. */
module FsckProps {
  import opened FsLayout
  import opened FsImage
  import opened FsSpec
  import opened FsWalkProps
  import opened FsClaimProps

  // ---------------------------------------------------------------------
  // The checks of one inode

  /** The shape of directory `k`: every entry with a non-zero inode number
      names an in-use inode, and there are ".", ".." and a "." naming `k`. */
  predicate DirShapeOk(img: Image, k: nat)
    requires WellFormed(img) && k < |img.dinodes|
  {
    var es := Entries(img, img.dinodes[k]);
    NoDangling(img, es, 0) && HasDot(es, 0) && HasDotDot(es, 0) && HasSelfDot(es, 0, k)
  }

  /** The checks of inode `k` that do not depend on the other inodes: a
      valid type; for an in-use inode, addresses in range; for the root,
      a directory whose parent is itself; for a directory, its shape. */
  predicate InodeChecksPass(img: Image, k: nat)
    requires WellFormed(img) && k < |img.dinodes|
  {
    var ino := img.dinodes[k];
    && ValidType(ino.itype)
    && (ino.itype != 0 ==> AddressCheck(img, ino).Ok?)
    && (k == ROOTINO ==> ino.itype == T_DIR && RootParentIsSelf(img, ino))
    && (ino.itype == T_DIR ==> DirShapeOk(img, k))
  }

  /** The claims of in-use inode `k` that do not depend on the other
      inodes: every address fits the usage table, is marked in the bitmap,
      and no two of them coincide. */
  predicate ClaimsPass(img: Image, k: nat)
    requires WellFormed(img) && k < |img.dinodes|
  {
    var slots := ClaimSlots(img, img.dinodes[k]);
    img.dinodes[k].itype != 0 ==>
      && SlotsFit(slots, img.sb.size)
      && DistinctFrom(slots, 0)
      && (forall s :: 0 <= s < |slots| && slots[s].addr != 0 ==> IsBlockUsed(img, slots[s].addr))
  }

  /** The forward pass passes inode `k` exactly when the checks of `k` pass
      and, for an in-use inode, its blocks can all be claimed in the usage
      table left by the inodes before it. */
  lemma InodeStepOutcome(img: Image, k: nat, t: Tables)
    requires WellFormed(img) && k < |img.dinodes|
    requires |t.dblocks| == img.sb.size && |t.inodes| == |img.dinodes|
    ensures InodeStep(img, k, t).Ok? <==>
              InodeChecksPass(img, k) &&
              (img.dinodes[k].itype != 0 ==>
                 SlotsFit(ClaimSlots(img, img.dinodes[k]), img.sb.size) &&
                 ClaimableFrom(img, ClaimSlots(img, img.dinodes[k]), 0, t.dblocks))
  {
    var ino := img.dinodes[k];
    if ValidType(ino.itype) && (ino.itype != 0 ==> AddressCheck(img, ino).Ok?) {
      var inodes1 := if ino.itype != 0 then t.inodes[k := t.inodes[k].(inuse := true)] else t.inodes;
      if ino.itype == T_DIR {
        DirCheckOutcome(img, k, inodes1);
      }
      if ino.itype != 0 {
        SlotsInRange(img, ino);
        ClaimFromOutcome(img, k, ClaimSlots(img, ino), 0, t.dblocks);
      }
    }
  }

  /** The forward pass from inode `k` takes inode `k`, then goes on. */
  lemma ForwardStep(img: Image, k: nat, t: Tables)
    requires WellFormed(img) && k < |img.dinodes|
    requires |t.dblocks| == img.sb.size && |t.inodes| == |img.dinodes|
    ensures InodeStep(img, k, t).Err? ==> Forward(img, k, t) == Err(InodeStep(img, k, t).error)
    ensures InodeStep(img, k, t).Ok? ==> Forward(img, k, t) == Forward(img, k + 1, InodeStep(img, k, t).value)
  {
    assert Forward(img, k, t) == ForwardThen(img, k, t);
  }

  /** A forward pass from inode `k` that passes has passed the checks of
      every inode from `k` on. */
  lemma {:induction false} ForwardChecks(img: Image, k: nat, t: Tables)
    requires WellFormed(img) && k <= |img.dinodes|
    requires |t.dblocks| == img.sb.size && |t.inodes| == |img.dinodes|
    requires Forward(img, k, t).Ok?
    ensures forall j :: k <= j < |img.dinodes| ==> InodeChecksPass(img, j) && ClaimsPass(img, j)
    decreases |img.dinodes| - k
  {
    if k < |img.dinodes| {
      ForwardStep(img, k, t);
      InodeStepOutcome(img, k, t);
      ForwardChecks(img, k + 1, InodeStep(img, k, t).value);
    }
  }

  // ---------------------------------------------------------------------
  // The inode table

  /** References to inode `j` from the directories among inodes `lo..hi-1`. */
  function DirRefs(img: Image, j: nat, lo: nat, hi: nat): nat
    requires WellFormed(img) && hi <= |img.dinodes|
    decreases hi
  {
    if hi <= lo then 0
    else DirRefs(img, j, lo, hi - 1)
         + (if img.dinodes[hi - 1].itype == T_DIR then RefsFrom(Entries(img, img.dinodes[hi - 1]), 0, j) else 0)
  }

  /** The reference count of inode `j` once inodes `0..m-1` are handled:
      the references from the directories among them, except that the
      root's count restarts at 1 once the root itself is walked. */
  function RefTotal(img: Image, j: nat, m: nat): nat
    requires WellFormed(img) && m <= |img.dinodes|
  {
    if j == ROOTINO && ROOTINO < m then 1 + DirRefs(img, j, ROOTINO + 1, m) else DirRefs(img, j, 0, m)
  }

  /** The parent recorded for inode `j` once inodes `0..m-1` are handled:
      for a directory among them, the inode number of its last ".." entry;
      otherwise 0. */
  ghost predicate ParentRecorded(img: Image, j: nat, m: nat, p: nat)
    requires WellFormed(img) && j < |img.dinodes|
  {
    if j < m && img.dinodes[j].itype == T_DIR
    then forall x: nat :: LastDotDot(Entries(img, img.dinodes[j]), x) ==> p == Entries(img, img.dinodes[j])[x].inum
    else p == 0
  }

  /** The inode table once inodes `0..m-1` are handled: the in-use flags of
      the in-use inodes among them, the parents of the directories among
      them, and the reference counts their entries make. */
  ghost predicate InodesInv(img: Image, m: nat, inodes: seq<InodeUse>)
    requires WellFormed(img) && m <= |img.dinodes| && |inodes| == |img.dinodes|
  {
    forall j :: 0 <= j < |inodes| ==>
      && inodes[j].inuse == (j < m && img.dinodes[j].itype != 0)
      && ParentRecorded(img, j, m, inodes[j].parentinode)
      && inodes[j].refcount == RefTotal(img, j, m)
  }

  /** Handling inode `m` extends the inode table's invariant to `0..m`. */
  lemma InodeStepInodes(img: Image, m: nat, t: Tables)
    requires WellFormed(img) && m < |img.dinodes|
    requires |t.dblocks| == img.sb.size && |t.inodes| == |img.dinodes|
    requires InodeStep(img, m, t).Ok? && InodesInv(img, m, t.inodes)
    ensures InodesInv(img, m + 1, InodeStep(img, m, t).value.inodes)
  {
    var ino := img.dinodes[m];
    InodeStepOutcome(img, m, t);
    var inodes1 := if ino.itype != 0 then t.inodes[m := t.inodes[m].(inuse := true)] else t.inodes;
    var after := InodeStep(img, m, t).value.inodes;
    if ino.itype == T_DIR {
      DirCheckTable(img, m, inodes1);
      assert after == DirCheck(img, m, inodes1).value;
    } else {
      assert after == inodes1;
    }
    forall j | 0 <= j < |after|
      ensures after[j].inuse == (j < m + 1 && img.dinodes[j].itype != 0)
      ensures ParentRecorded(img, j, m + 1, after[j].parentinode)
      ensures after[j].refcount == RefTotal(img, j, m + 1)
    {
      RefTotalStep(img, j, m);
    }
  }

  /** Handling directory `m` adds its references to every count, except
      that the root's count is 1 right after the root itself. */
  lemma RefTotalStep(img: Image, j: nat, m: nat)
    requires WellFormed(img) && m < |img.dinodes|
    ensures j == m == ROOTINO ==> RefTotal(img, j, m + 1) == 1
    ensures !(j == m == ROOTINO) ==>
              RefTotal(img, j, m + 1) == RefTotal(img, j, m)
                + (if img.dinodes[m].itype == T_DIR then RefsFrom(Entries(img, img.dinodes[m]), 0, j) else 0)
  {
    assert DirRefs(img, j, 0, m + 1) == DirRefs(img, j, 0, m)
           + (if img.dinodes[m].itype == T_DIR then RefsFrom(Entries(img, img.dinodes[m]), 0, j) else 0);
  }

  // ---------------------------------------------------------------------
  // The usage table

  /** Inode `k` is in use and claims block `b` under kind `kind`. */
  predicate ClaimsAs(img: Image, k: nat, b: nat, kind: AddrKind)
    requires WellFormed(img) && k < |img.dinodes|
  {
    var slots := ClaimSlots(img, img.dinodes[k]);
    img.dinodes[k].itype != 0 && b != 0 && exists s :: 0 <= s < |slots| && slots[s].addr == b && slots[s].kind == kind
  }

  /** The usage table once inodes `0..m-1` are handled: a block is either
      free, or used once, marked in the bitmap and claimed by one of those
      inodes under the kind recorded; every block those inodes claim is
      recorded as theirs. */
  predicate BlocksInv(img: Image, m: nat, d: seq<Datablock>)
    requires WellFormed(img) && m <= |img.dinodes| && |d| == img.sb.size
  {
    && (forall b :: 0 <= b < |d| ==>
          d[b] == FreeBlock ||
          (d[b] == Datablock(true, 1, d[b].inode, d[b].kind) && d[b].inode < m &&
           IsBlockUsed(img, b) && ClaimsAs(img, d[b].inode, b, d[b].kind)))
    && (forall k, s ::
          (0 <= k < m && img.dinodes[k].itype != 0 &&
           0 <= s < |ClaimSlots(img, img.dinodes[k])| && ClaimSlots(img, img.dinodes[k])[s].addr != 0) ==>
          ClaimSlots(img, img.dinodes[k])[s].addr < |d| &&
          d[ClaimSlots(img, img.dinodes[k])[s].addr] == Datablock(true, 1, k, ClaimSlots(img, img.dinodes[k])[s].kind))
  }

  /** Handling inode `m` extends the usage table's invariant to `0..m`. */
  lemma InodeStepBlocks(img: Image, m: nat, t: Tables)
    requires WellFormed(img) && m < |img.dinodes|
    requires |t.dblocks| == img.sb.size && |t.inodes| == |img.dinodes|
    requires InodeStep(img, m, t).Ok? && BlocksInv(img, m, t.dblocks)
    ensures BlocksInv(img, m + 1, InodeStep(img, m, t).value.dblocks)
  {
    var ino := img.dinodes[m];
    var d := t.dblocks;
    var d' := InodeStep(img, m, t).value.dblocks;
    if ino.itype == 0 {
      assert d' == d;
    } else {
      var slots := ClaimSlots(img, ino);
      SlotsInRange(img, ino);
      InodeStepOutcome(img, m, t);
      assert d' == ClaimFrom(img, m, slots, 0, d).value;
      ClaimFromEffect(img, m, slots, 0, d);
      forall b | 0 <= b < |d'|
        ensures d'[b] == FreeBlock ||
                (d'[b] == Datablock(true, 1, d'[b].inode, d'[b].kind) && d'[b].inode < m + 1 &&
                 IsBlockUsed(img, b) && ClaimsAs(img, d'[b].inode, b, d'[b].kind))
      {
        if AmongFrom(slots, 0, b) {
          var s :| 0 <= s < |slots| && slots[s].addr == b;
          assert ClaimsAs(img, m, b, slots[s].kind);
        }
      }
      forall k, s | 0 <= k < m + 1 && img.dinodes[k].itype != 0 &&
          0 <= s < |ClaimSlots(img, img.dinodes[k])| && ClaimSlots(img, img.dinodes[k])[s].addr != 0
        ensures d'[ClaimSlots(img, img.dinodes[k])[s].addr] == Datablock(true, 1, k, ClaimSlots(img, img.dinodes[k])[s].kind)
      {
        if k < m {
          var a := ClaimSlots(img, img.dinodes[k])[s].addr;
          assert d[a].usecount == 1;
          assert !AmongFrom(slots, 0, a);
        }
      }
    }
  }

  /** A forward pass from inode `k` that passes, started from an inode
      table that holds its invariant for `0..k-1`, ends with one that holds
      it for every inode. */
  lemma {:induction false} ForwardInodes(img: Image, k: nat, t: Tables)
    requires WellFormed(img) && k <= |img.dinodes|
    requires |t.dblocks| == img.sb.size && |t.inodes| == |img.dinodes|
    requires Forward(img, k, t).Ok? && InodesInv(img, k, t.inodes)
    ensures InodesInv(img, |img.dinodes|, Forward(img, k, t).value.inodes)
    decreases |img.dinodes| - k
  {
    if k < |img.dinodes| {
      ForwardStep(img, k, t);
      InodeStepInodes(img, k, t);
      ForwardInodes(img, k + 1, InodeStep(img, k, t).value);
    }
  }

  /** The same for the usage table. */
  lemma {:induction false} ForwardBlocks(img: Image, k: nat, t: Tables)
    requires WellFormed(img) && k <= |img.dinodes|
    requires |t.dblocks| == img.sb.size && |t.inodes| == |img.dinodes|
    requires Forward(img, k, t).Ok? && BlocksInv(img, k, t.dblocks)
    ensures BlocksInv(img, |img.dinodes|, Forward(img, k, t).value.dblocks)
    decreases |img.dinodes| - k
  {
    if k < |img.dinodes| {
      ForwardStep(img, k, t);
      InodeStepBlocks(img, k, t);
      ForwardBlocks(img, k + 1, InodeStep(img, k, t).value);
    }
  }

  // ---------------------------------------------------------------------
  // Reconciliation

  /** The three tests reconciliation makes of inode `j`: an in-use inode is
      referred to, a file's link count equals its references, a directory
      is referred to at most once. */
  predicate ReconcilePasses(img: Image, inodes: seq<InodeUse>, j: nat)
    requires WellFormed(img) && |inodes| == |img.dinodes| && j < |inodes|
  {
    && (inodes[j].inuse ==> inodes[j].refcount >= 1)
    && (img.dinodes[j].itype == T_FILE ==> img.dinodes[j].nlink == inodes[j].refcount)
    && (img.dinodes[j].itype == T_DIR ==> inodes[j].refcount <= 1)
  }

  /** Reconciliation from inode `j` passes exactly when every inode from `j`
      on passes its tests; otherwise it reports the first failing test of
      the first failing inode. */
  lemma {:induction false} ReconcileOutcome(img: Image, inodes: seq<InodeUse>, j: nat)
    requires WellFormed(img) && |inodes| == |img.dinodes|
    ensures ReconcileFrom(img, inodes, j).Ok? <==> forall x :: j <= x < |inodes| ==> ReconcilePasses(img, inodes, x)
    ensures ReconcileFrom(img, inodes, j).Err? ==>
              exists x :: j <= x < |inodes| && !ReconcilePasses(img, inodes, x) &&
                (forall y :: j <= y < x ==> ReconcilePasses(img, inodes, y)) &&
                ReconcileFrom(img, inodes, j).error ==
                  if inodes[x].inuse && inodes[x].refcount < 1 then InodeNotInDirectory
                  else if img.dinodes[x].itype == T_FILE && img.dinodes[x].nlink != inodes[x].refcount then BadFileRefCount
                  else DirAppearsTwice
    decreases |inodes| - j
  {
    if j < |inodes| {
      ReconcileOutcome(img, inodes, j + 1);
      if ReconcilePasses(img, inodes, j) {
        assert ReconcileFrom(img, inodes, j) == ReconcileFrom(img, inodes, j + 1);
        if ReconcileFrom(img, inodes, j + 1).Err? {
          var x :| j + 1 <= x < |inodes| && !ReconcilePasses(img, inodes, x) &&
                (forall y :: j + 1 <= y < x ==> ReconcilePasses(img, inodes, y)) &&
                ReconcileFrom(img, inodes, j + 1).error ==
                  if inodes[x].inuse && inodes[x].refcount < 1 then InodeNotInDirectory
                  else if img.dinodes[x].itype == T_FILE && img.dinodes[x].nlink != inodes[x].refcount then BadFileRefCount
                  else DirAppearsTwice;
          assert forall y :: j <= y < x ==> ReconcilePasses(img, inodes, y);
        }
      }
    }
  }

  // ---------------------------------------------------------------------
  // What a passing run guarantees

  /** A passing run: every inode passed its checks and its claims, the
      derived tables hold their invariants for all inodes, the bitmap sweep
      and reconciliation passed. */
  lemma FsckTables(img: Image)
    requires WellFormed(img) && Fsck(img).Ok?
    ensures |Fsck(img).value.dblocks| == img.sb.size && |Fsck(img).value.inodes| == |img.dinodes|
    ensures forall k :: 0 <= k < |img.dinodes| ==> InodeChecksPass(img, k) && ClaimsPass(img, k)
    ensures InodesInv(img, |img.dinodes|, Fsck(img).value.inodes)
    ensures BlocksInv(img, |img.dinodes|, Fsck(img).value.dblocks)
    ensures BitmapBacked(img, Fsck(img).value.dblocks)
    ensures forall x :: 1 <= x < |img.dinodes| ==> ReconcilePasses(img, Fsck(img).value.inodes, x)
  {
    var t0 := InitialTables(img.sb);
    assert InodesInv(img, 0, t0.inodes);
    assert BlocksInv(img, 0, t0.dblocks);
    ForwardChecks(img, 0, t0);
    ForwardInodes(img, 0, t0);
    ForwardBlocks(img, 0, t0);
    ReconcileOutcome(img, Fsck(img).value.inodes, 1);
  }

  // ---------------------------------------------------------------------
  // Consistency, stated without the derived tables

  /** In-use inode `k` claims block `b` (under some kind). */
  ghost predicate ClaimedBy(img: Image, k: nat, b: nat)
    requires WellFormed(img) && k < |img.dinodes|
  {
    exists kind :: ClaimsAs(img, k, b, kind)
  }

  /** No block is claimed by two different in-use inodes. */
  ghost predicate ClaimsExclusive(img: Image)
    requires WellFormed(img)
  {
    forall k1, k2, b ::
      (0 <= k1 < |img.dinodes| && 0 <= k2 < |img.dinodes| && ClaimedBy(img, k1, b) && ClaimedBy(img, k2, b)) ==>
      k1 == k2
  }

  /** Every block from DataStart on that the bitmap marks is claimed. */
  ghost predicate MarkedBlocksClaimed(img: Image)
    requires WellFormed(img)
  {
    forall b :: DataStart(img.sb) <= b < img.sb.size && IsBlockUsed(img, b) ==>
      exists k :: 0 <= k < |img.dinodes| && ClaimedBy(img, k, b)
  }

  /** The link-count tests on inode `j`, with the references counted over
      all directories: an in-use inode is referred to, a file's link count
      equals its references, a directory is referred to at most once. */
  predicate LinkCountOk(img: Image, j: nat)
    requires WellFormed(img) && j < |img.dinodes|
  {
    var refs := RefTotal(img, j, |img.dinodes|);
    && (img.dinodes[j].itype != 0 ==> refs >= 1)
    && (img.dinodes[j].itype == T_FILE ==> img.dinodes[j].nlink == refs)
    && (img.dinodes[j].itype == T_DIR ==> refs <= 1)
  }

  /** The image is consistent: every inode passes its own checks and
      claims, no block is claimed twice, every marked data block is claimed,
      and the link counts agree with the directory entries. */
  ghost predicate Consistent(img: Image)
    requires WellFormed(img)
  {
    && (forall k :: 0 <= k < |img.dinodes| ==> InodeChecksPass(img, k) && ClaimsPass(img, k))
    && ClaimsExclusive(img)
    && MarkedBlocksClaimed(img)
    && (forall j :: ROOTINO <= j < |img.dinodes| ==> LinkCountOk(img, j))
  }

  /** A run that passes leaves an image that is consistent. */
  lemma FsckSound(img: Image)
    requires WellFormed(img) && Fsck(img).Ok?
    ensures Consistent(img)
  {
    FsckTables(img);
    var t := Fsck(img).value;
    var n := |img.dinodes|;
    forall k1: nat, k2: nat, b: nat | 0 <= k1 < n && 0 <= k2 < n && ClaimedBy(img, k1, b) && ClaimedBy(img, k2, b)
      ensures k1 == k2
    {
      var s1 :| 0 <= s1 < |ClaimSlots(img, img.dinodes[k1])| && ClaimSlots(img, img.dinodes[k1])[s1].addr == b;
      var s2 :| 0 <= s2 < |ClaimSlots(img, img.dinodes[k2])| && ClaimSlots(img, img.dinodes[k2])[s2].addr == b;
      assert t.dblocks[b].inode == k1;
    }
    forall b | DataStart(img.sb) <= b < img.sb.size && IsBlockUsed(img, b)
      ensures exists k :: 0 <= k < n && ClaimedBy(img, k, b)
    {
      assert ClaimsAs(img, t.dblocks[b].inode, b, t.dblocks[b].kind);
      assert ClaimedBy(img, t.dblocks[b].inode, b);
    }
    forall j | ROOTINO <= j < n ensures LinkCountOk(img, j)
    {
      assert ReconcilePasses(img, t.inodes, j);
    }
  }

  /** On a consistent image, a forward pass from inode `k` whose usage
      table holds its invariant for `0..k-1` passes. */
  lemma {:induction false} ForwardPasses(img: Image, k: nat, t: Tables)
    requires WellFormed(img) && k <= |img.dinodes| && Consistent(img)
    requires |t.dblocks| == img.sb.size && |t.inodes| == |img.dinodes|
    requires BlocksInv(img, k, t.dblocks)
    ensures Forward(img, k, t).Ok?
    decreases |img.dinodes| - k
  {
    if k < |img.dinodes| {
      var slots := ClaimSlots(img, img.dinodes[k]);
      assert InodeChecksPass(img, k) && ClaimsPass(img, k);
      if img.dinodes[k].itype != 0 {
        // a block an earlier inode claimed cannot be among the claims of `k`
        forall s | 0 <= s < |slots| && slots[s].addr != 0 ensures t.dblocks[slots[s].addr].usecount == 0
        {
          var a := slots[s].addr;
          if t.dblocks[a] != FreeBlock {
            var o := t.dblocks[a].inode;
            assert ClaimsAs(img, o, a, t.dblocks[a].kind);
            assert ClaimsAs(img, k, a, slots[s].kind);
            assert ClaimedBy(img, o, a) && ClaimedBy(img, k, a);
          }
        }
        assert ClaimableFrom(img, slots, 0, t.dblocks);
      }
      InodeStepOutcome(img, k, t);
      ForwardStep(img, k, t);
      InodeStepBlocks(img, k, t);
      ForwardPasses(img, k + 1, InodeStep(img, k, t).value);
    }
  }

  /** A usage table that holds its invariant for every inode backs every
      marked data block when every marked data block is claimed. */
  lemma BlocksBackBitmap(img: Image, d: seq<Datablock>)
    requires WellFormed(img) && |d| == img.sb.size
    requires BlocksInv(img, |img.dinodes|, d) && MarkedBlocksClaimed(img)
    ensures BitmapBacked(img, d)
  {
    forall b | DataStart(img.sb) <= b < img.sb.size && IsBlockUsed(img, b) ensures d[b].usecount != 0
    {
      var k :| 0 <= k < |img.dinodes| && ClaimedBy(img, k, b);
      var s :| 0 <= s < |ClaimSlots(img, img.dinodes[k])| && ClaimSlots(img, img.dinodes[k])[s].addr == b;
    }
  }

  /** An inode table that holds its invariant for every inode passes
      reconciliation when the link counts agree with the entries. */
  lemma InodesReconcile(img: Image, inodes: seq<InodeUse>)
    requires WellFormed(img) && |inodes| == |img.dinodes|
    requires InodesInv(img, |img.dinodes|, inodes)
    requires forall j :: ROOTINO <= j < |img.dinodes| ==> LinkCountOk(img, j)
    ensures ReconcileFrom(img, inodes, ROOTINO).Ok?
  {
    ReconcileOutcome(img, inodes, ROOTINO);
    assert forall j :: ROOTINO <= j < |img.dinodes| ==> LinkCountOk(img, j) && ReconcilePasses(img, inodes, j);
  }

  /** A run on a consistent image passes. */
  lemma FsckComplete(img: Image)
    requires WellFormed(img) && Consistent(img)
    ensures Fsck(img).Ok?
  {
    var t0 := InitialTables(img.sb);
    assert InodesInv(img, 0, t0.inodes);
    assert BlocksInv(img, 0, t0.dblocks);
    ForwardPasses(img, 0, t0);
    ForwardInodes(img, 0, t0);
    ForwardBlocks(img, 0, t0);
    var t := Forward(img, 0, t0).value;
    BlocksBackBitmap(img, t.dblocks);
    InodesReconcile(img, t.inodes);
  }

  /** The checker accepts an image exactly when it is consistent. */
  lemma FsckAcceptsExactlyConsistent(img: Image)
    requires WellFormed(img)
    ensures Fsck(img).Ok? <==> Consistent(img)
  {
    if Fsck(img).Ok? {
      FsckSound(img);
    }
    if Consistent(img) {
      FsckComplete(img);
    }
  }

  /** A usage table holding its invariant for every inode records each
      non-zero direct address of an in-use inode as a direct-address block
      of that inode. */
  lemma DirectOwners(img: Image, d: seq<Datablock>)
    requires WellFormed(img) && |d| == img.sb.size && BlocksInv(img, |img.dinodes|, d)
    ensures forall k, x ::
              (0 <= k < |img.dinodes| && img.dinodes[k].itype != 0 && 0 <= x < NDIRECT && img.dinodes[k].addrs[x] != 0) ==>
              img.dinodes[k].addrs[x] < img.sb.size && IsBlockUsed(img, img.dinodes[k].addrs[x]) &&
              d[img.dinodes[k].addrs[x]] == Datablock(true, 1, k, DirectAddr)
  {
    forall k, x | 0 <= k < |img.dinodes| && img.dinodes[k].itype != 0 && 0 <= x < NDIRECT && img.dinodes[k].addrs[x] != 0
      ensures img.dinodes[k].addrs[x] < img.sb.size && IsBlockUsed(img, img.dinodes[k].addrs[x])
      ensures d[img.dinodes[k].addrs[x]] == Datablock(true, 1, k, DirectAddr)
    {
      assert ClaimSlots(img, img.dinodes[k])[x] == DirectSlots(img.dinodes[k])[x];
    }
  }

  /** The same for the indirect block itself, as an indirect-address block. */
  lemma IndirectOwner(img: Image, d: seq<Datablock>)
    requires WellFormed(img) && |d| == img.sb.size && BlocksInv(img, |img.dinodes|, d)
    ensures forall k :: 0 <= k < |img.dinodes| && img.dinodes[k].itype != 0 && Indirect(img.dinodes[k]) != 0 ==>
              Indirect(img.dinodes[k]) < img.sb.size && IsBlockUsed(img, Indirect(img.dinodes[k])) &&
              d[Indirect(img.dinodes[k])] == Datablock(true, 1, k, IndirectAddr)
  {
    forall k | 0 <= k < |img.dinodes| && img.dinodes[k].itype != 0 && Indirect(img.dinodes[k]) != 0
      ensures Indirect(img.dinodes[k]) < img.sb.size && IsBlockUsed(img, Indirect(img.dinodes[k]))
      ensures d[Indirect(img.dinodes[k])] == Datablock(true, 1, k, IndirectAddr)
    {
      assert ClaimSlots(img, img.dinodes[k])[NDIRECT].addr == Indirect(img.dinodes[k]);
    }
  }

  /** The same for the non-zero entries of the indirect block, which are
      recorded as direct-address blocks. */
  lemma EntryOwners(img: Image, d: seq<Datablock>)
    requires WellFormed(img) && |d| == img.sb.size && BlocksInv(img, |img.dinodes|, d)
    ensures forall k, x ::
              (0 <= k < |img.dinodes| && img.dinodes[k].itype != 0 && Indirect(img.dinodes[k]) != 0 &&
               0 <= x < NINDIRECT && IndirectEntry(img, Indirect(img.dinodes[k]), x) != 0) ==>
              IndirectEntry(img, Indirect(img.dinodes[k]), x) < img.sb.size &&
              IsBlockUsed(img, IndirectEntry(img, Indirect(img.dinodes[k]), x)) &&
              d[IndirectEntry(img, Indirect(img.dinodes[k]), x)] == Datablock(true, 1, k, DirectAddr)
  {
    forall k, x | 0 <= k < |img.dinodes| && img.dinodes[k].itype != 0 && Indirect(img.dinodes[k]) != 0 &&
        0 <= x < NINDIRECT && IndirectEntry(img, Indirect(img.dinodes[k]), x) != 0
      ensures IndirectEntry(img, Indirect(img.dinodes[k]), x) < img.sb.size
      ensures IsBlockUsed(img, IndirectEntry(img, Indirect(img.dinodes[k]), x))
      ensures d[IndirectEntry(img, Indirect(img.dinodes[k]), x)] == Datablock(true, 1, k, DirectAddr)
    {
      assert ClaimSlots(img, img.dinodes[k])[NDIRECT + 1 + x] == EntrySlots(img, Indirect(img.dinodes[k]))[x];
    }
  }

  /** After a passing run the usage table holds, for every in-use inode, its
      direct addresses and its indirect block's entries as direct-address
      blocks and its indirect block as an indirect-address block, each used
      once, by that inode, and marked in the bitmap. */
  lemma FsckBlockOwners(img: Image)
    requires WellFormed(img) && Fsck(img).Ok?
    ensures |Fsck(img).value.dblocks| == img.sb.size
    ensures forall k, x ::
              (0 <= k < |img.dinodes| && img.dinodes[k].itype != 0 && 0 <= x < NDIRECT && img.dinodes[k].addrs[x] != 0) ==>
              img.dinodes[k].addrs[x] < img.sb.size && IsBlockUsed(img, img.dinodes[k].addrs[x]) &&
              Fsck(img).value.dblocks[img.dinodes[k].addrs[x]] == Datablock(true, 1, k, DirectAddr)
    ensures forall k :: 0 <= k < |img.dinodes| && img.dinodes[k].itype != 0 && Indirect(img.dinodes[k]) != 0 ==>
              Indirect(img.dinodes[k]) < img.sb.size && IsBlockUsed(img, Indirect(img.dinodes[k])) &&
              Fsck(img).value.dblocks[Indirect(img.dinodes[k])] == Datablock(true, 1, k, IndirectAddr)
    ensures forall k, x ::
              (0 <= k < |img.dinodes| && img.dinodes[k].itype != 0 && Indirect(img.dinodes[k]) != 0 &&
               0 <= x < NINDIRECT && IndirectEntry(img, Indirect(img.dinodes[k]), x) != 0) ==>
              IndirectEntry(img, Indirect(img.dinodes[k]), x) < img.sb.size &&
              IsBlockUsed(img, IndirectEntry(img, Indirect(img.dinodes[k]), x)) &&
              Fsck(img).value.dblocks[IndirectEntry(img, Indirect(img.dinodes[k]), x)] == Datablock(true, 1, k, DirectAddr)
  {
    FsckTables(img);
    var d := Fsck(img).value.dblocks;
    DirectOwners(img, d);
    IndirectOwner(img, d);
    EntryOwners(img, d);
  }
}
