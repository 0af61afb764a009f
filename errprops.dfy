/** Which error a failing run reports. Every check is stated over the
    image alone: the first inode whose own checks or claims fail decides
    the error of the forward pass, then an unbacked bitmap, then the first
    inode whose link count disagrees with the directory entries. */
module FsckErrors {
  import opened FsLayout
  import opened FsImage
  import opened FsSpec
  import opened FsWalkProps
  import opened FsClaimProps
  import opened FsckProps

  /** Block `b` is claimed by one of the in-use inodes `0..m-1`. */
  ghost predicate ClaimedBefore(img: Image, m: nat, b: nat)
    requires WellFormed(img) && m <= |img.dinodes|
  {
    exists j :: 0 <= j < m && ClaimedBy(img, j, b)
  }

  /** Slot `s` of inode `m` can be claimed after the inodes before `m` and
      the slots before `s`: its address is zero, or it is marked in the
      bitmap, claimed by no earlier inode and by no earlier slot. */
  ghost predicate SlotOk(img: Image, m: nat, s: nat)
    requires WellFormed(img) && m < |img.dinodes| && s < |ClaimSlots(img, img.dinodes[m])|
  {
    var slots := ClaimSlots(img, img.dinodes[m]);
    var a := slots[s].addr;
    a == 0 || (IsBlockUsed(img, a) && !ClaimedBefore(img, m, a) && forall u :: 0 <= u < s ==> slots[u].addr != a)
  }

  /** Every slot of inode `m` can be claimed. */
  ghost predicate SlotsPass(img: Image, m: nat)
    requires WellFormed(img) && m < |img.dinodes|
  {
    forall s :: 0 <= s < |ClaimSlots(img, img.dinodes[m])| ==> SlotOk(img, m, s)
  }

  /** The first slot of inode `m` that cannot be claimed reports `e`: as
      unmarked in the bitmap, or else as a second use of its kind. */
  ghost predicate ClaimFails(img: Image, m: nat, e: FsError)
    requires WellFormed(img) && m < |img.dinodes|
  {
    var slots := ClaimSlots(img, img.dinodes[m]);
    exists s :: 0 <= s < |slots| && !SlotOk(img, m, s) && (forall u :: 0 <= u < s ==> SlotOk(img, m, u)) &&
      e == if IsBlockUsed(img, slots[s].addr) then slots[s].dup else MarkedFreeInBitmap
  }

  /** Inode `m` passes the forward pass: its own checks pass and, when it
      is in use, every one of its slots can be claimed. */
  ghost predicate InodePasses(img: Image, m: nat)
    requires WellFormed(img) && m < |img.dinodes|
  {
    InodeChecksPass(img, m) && (img.dinodes[m].itype != 0 ==> SlotsPass(img, m))
  }

  /** The error of the first failing check of inode `m` among its own
      checks: type, direct addresses, indirect address and entries, root,
      dangling entry, then directory shape. */
  function CheckError(img: Image, m: nat): FsError
    requires WellFormed(img) && m < |img.dinodes|
  {
    var ino := img.dinodes[m];
    if !ValidType(ino.itype) then BadInode
    else if ino.itype != 0 && !DirectAddrsInRange(ino, img.sb.size) then BadDirectAddress
    else if ino.itype != 0 && AddressCheck(img, ino).Err? then BadIndirectAddress
    else if m == ROOTINO && !(ino.itype == T_DIR && RootParentIsSelf(img, ino)) then RootDirMissing
    else if ino.itype == T_DIR && !NoDangling(img, Entries(img, ino), 0) then RefToFreeInode
    else DirNotFormatted
  }

  /** Inode `m` fails with error `e`: the first of its own checks that
      fails, or else its first slot that cannot be claimed. */
  ghost predicate InodeFails(img: Image, m: nat, e: FsError)
    requires WellFormed(img) && m < |img.dinodes|
  {
    if !InodeChecksPass(img, m) then e == CheckError(img, m) else ClaimFails(img, m, e)
  }

  /** With the usage table holding its invariant for `0..m-1`, a block is
      in use exactly when an inode before `m` claims it. */
  lemma UsedIffClaimedBefore(img: Image, m: nat, d: seq<Datablock>)
    requires WellFormed(img) && m <= |img.dinodes| && |d| == img.sb.size && BlocksInv(img, m, d)
    ensures forall b :: 0 <= b < |d| ==> (d[b].usecount != 0 <==> ClaimedBefore(img, m, b))
  {
    forall b | 0 <= b < |d| ensures d[b].usecount != 0 <==> ClaimedBefore(img, m, b)
    {
      if d[b] != FreeBlock {
        assert ClaimsAs(img, d[b].inode, b, d[b].kind);
        assert ClaimedBy(img, d[b].inode, b);
      }
      if ClaimedBefore(img, m, b) {
        var j :| 0 <= j < m && ClaimedBy(img, j, b);
        var kind :| ClaimsAs(img, j, b, kind);
        var slots := ClaimSlots(img, img.dinodes[j]);
        var s :| 0 <= s < |slots| && slots[s].addr == b && slots[s].kind == kind;
        assert d[slots[s].addr].usecount == 1;
      }
    }
  }

  /** Against such a table, a slot of inode `m` can be claimed exactly when
      the claims of `m` find it claimable. */
  lemma SlotOkIff(img: Image, m: nat, d: seq<Datablock>)
    requires WellFormed(img) && m < |img.dinodes| && |d| == img.sb.size && BlocksInv(img, m, d)
    requires SlotsFit(ClaimSlots(img, img.dinodes[m]), |d|)
    ensures forall s :: 0 <= s < |ClaimSlots(img, img.dinodes[m])| ==>
              (SlotOk(img, m, s) <==> SlotClaimable(img, ClaimSlots(img, img.dinodes[m]), 0, s, d))
  {
    UsedIffClaimedBefore(img, m, d);
  }

  /** An inode step whose own checks fail reports the first of them. */
  lemma InodeStepCheckError(img: Image, m: nat, t: Tables)
    requires WellFormed(img) && m < |img.dinodes|
    requires |t.dblocks| == img.sb.size && |t.inodes| == |img.dinodes|
    requires !InodeChecksPass(img, m)
    ensures InodeStep(img, m, t) == Err(CheckError(img, m))
  {
    var ino := img.dinodes[m];
    if ValidType(ino.itype) && (ino.itype != 0 ==> AddressCheck(img, ino).Ok?) &&
       !(m == ROOTINO && !(ino.itype == T_DIR && RootParentIsSelf(img, ino))) {
      var inodes1 := if ino.itype != 0 then t.inodes[m := t.inodes[m].(inuse := true)] else t.inodes;
      DirCheckOutcome(img, m, inodes1);
    }
  }

  /** The claims of inode `m`, against a usage table holding its
      invariant for `0..m-1`, pass exactly when every slot of `m` can be
      claimed. */
  lemma ClaimsPassIff(img: Image, m: nat, d: seq<Datablock>)
    requires WellFormed(img) && m < |img.dinodes| && |d| == img.sb.size && BlocksInv(img, m, d)
    requires SlotsFit(ClaimSlots(img, img.dinodes[m]), |d|)
    ensures ClaimFrom(img, m, ClaimSlots(img, img.dinodes[m]), 0, d).Ok? <==> SlotsPass(img, m)
  {
    var slots := ClaimSlots(img, img.dinodes[m]);
    ClaimFromOutcome(img, m, slots, 0, d);
    ClaimableFromSlots(img, slots, 0, d);
    SlotOkIff(img, m, d);
  }

  /** Failing claims of inode `m` report the first slot that cannot be
      claimed. */
  lemma ClaimsFailure(img: Image, m: nat, d: seq<Datablock>)
    requires WellFormed(img) && m < |img.dinodes| && |d| == img.sb.size && BlocksInv(img, m, d)
    requires SlotsFit(ClaimSlots(img, img.dinodes[m]), |d|)
    ensures ClaimFrom(img, m, ClaimSlots(img, img.dinodes[m]), 0, d).Err? ==>
              ClaimFails(img, m, ClaimFrom(img, m, ClaimSlots(img, img.dinodes[m]), 0, d).error)
  {
    var slots := ClaimSlots(img, img.dinodes[m]);
    ClaimFromFailure(img, m, slots, 0, d);
    if ClaimFrom(img, m, slots, 0, d).Err? {
      var s :| 0 <= s < |slots| && !SlotClaimable(img, slots, 0, s, d) &&
               (forall u :: 0 <= u < s ==> SlotClaimable(img, slots, 0, u, d)) &&
               ClaimFrom(img, m, slots, 0, d).error == if IsBlockUsed(img, slots[s].addr) then slots[s].dup else MarkedFreeInBitmap;
      SlotOkIff(img, m, d);
      assert !SlotOk(img, m, s) && forall u :: 0 <= u < s ==> SlotOk(img, m, u);
    }
  }

  /** An inode step whose own checks pass is its claims. */
  lemma InodeStepClaims(img: Image, m: nat, t: Tables)
    requires WellFormed(img) && m < |img.dinodes|
    requires |t.dblocks| == img.sb.size && |t.inodes| == |img.dinodes|
    requires InodeChecksPass(img, m) && img.dinodes[m].itype != 0
    ensures SlotsFit(ClaimSlots(img, img.dinodes[m]), img.sb.size)
    ensures InodeStep(img, m, t).Ok? <==> ClaimFrom(img, m, ClaimSlots(img, img.dinodes[m]), 0, t.dblocks).Ok?
    ensures InodeStep(img, m, t).Err? ==>
              InodeStep(img, m, t).error == ClaimFrom(img, m, ClaimSlots(img, img.dinodes[m]), 0, t.dblocks).error
  {
    var ino := img.dinodes[m];
    SlotsInRange(img, ino);
    if ino.itype == T_DIR {
      DirCheckOutcome(img, m, t.inodes[m := t.inodes[m].(inuse := true)]);
    }
  }

  /** An inode step, against a usage table holding its invariant for
      `0..m-1`, passes exactly when inode `m` passes. */
  lemma InodeStepPassIff(img: Image, m: nat, t: Tables)
    requires WellFormed(img) && m < |img.dinodes|
    requires |t.dblocks| == img.sb.size && |t.inodes| == |img.dinodes|
    requires BlocksInv(img, m, t.dblocks)
    ensures InodeStep(img, m, t).Ok? <==> InodePasses(img, m)
  {
    if InodeChecksPass(img, m) && img.dinodes[m].itype != 0 {
      InodeStepClaims(img, m, t);
      ClaimsPassIff(img, m, t.dblocks);
    } else {
      InodeStepOutcome(img, m, t);
    }
  }

  /** A failing inode step reports the first check of inode `m` that
      fails. */
  lemma InodeStepFailure(img: Image, m: nat, t: Tables)
    requires WellFormed(img) && m < |img.dinodes|
    requires |t.dblocks| == img.sb.size && |t.inodes| == |img.dinodes|
    requires BlocksInv(img, m, t.dblocks)
    ensures InodeStep(img, m, t).Err? ==> InodeFails(img, m, InodeStep(img, m, t).error)
  {
    if !InodeChecksPass(img, m) {
      InodeStepCheckError(img, m, t);
    } else if img.dinodes[m].itype != 0 {
      InodeStepClaims(img, m, t);
      ClaimsFailure(img, m, t.dblocks);
    } else {
      InodeStepOutcome(img, m, t);
    }
  }

  /** One inode step, against a usage table holding its invariant for
      `0..m-1`: it passes exactly when inode `m` passes, and otherwise
      reports the error of the first check of `m` that fails. */
  lemma InodeStepError(img: Image, m: nat, t: Tables)
    requires WellFormed(img) && m < |img.dinodes|
    requires |t.dblocks| == img.sb.size && |t.inodes| == |img.dinodes|
    requires BlocksInv(img, m, t.dblocks)
    ensures InodeStep(img, m, t).Ok? <==> InodePasses(img, m)
    ensures InodeStep(img, m, t).Err? ==> InodeFails(img, m, InodeStep(img, m, t).error)
  {
    InodeStepPassIff(img, m, t);
    InodeStepFailure(img, m, t);
  }

  /** The forward pass from inode `k`, against a usage table holding its
      invariant for `0..k-1`, passes exactly when every inode from `k` on
      passes. */
  lemma {:induction false} ForwardPassIff(img: Image, k: nat, t: Tables)
    requires WellFormed(img) && k <= |img.dinodes|
    requires |t.dblocks| == img.sb.size && |t.inodes| == |img.dinodes|
    requires BlocksInv(img, k, t.dblocks)
    ensures Forward(img, k, t).Ok? <==> forall j :: k <= j < |img.dinodes| ==> InodePasses(img, j)
    decreases |img.dinodes| - k
  {
    if k < |img.dinodes| {
      ForwardStep(img, k, t);
      InodeStepPassIff(img, k, t);
      if InodeStep(img, k, t).Ok? {
        InodeStepBlocks(img, k, t);
        ForwardPassIff(img, k + 1, InodeStep(img, k, t).value);
      }
    }
  }

  /** A forward pass from inode `k` that fails on inode `k` reports the
      error of `k`. */
  lemma ForwardFailsAt(img: Image, k: nat, t: Tables)
    requires WellFormed(img) && k < |img.dinodes|
    requires |t.dblocks| == img.sb.size && |t.inodes| == |img.dinodes|
    requires BlocksInv(img, k, t.dblocks) && InodeStep(img, k, t).Err?
    ensures Forward(img, k, t) == Err(InodeStep(img, k, t).error)
    ensures !InodePasses(img, k) && InodeFails(img, k, InodeStep(img, k, t).error)
  {
    ForwardStep(img, k, t);
    InodeStepError(img, k, t);
  }

  /** A forward pass from inode `k` that passes inode `k` fails where the
      pass from `k + 1` fails. */
  lemma ForwardFailsAfter(img: Image, k: nat, t: Tables, next: nat, t': Tables, m: nat)
    requires WellFormed(img) && k < |img.dinodes| && next == k + 1
    requires |t.dblocks| == img.sb.size && |t.inodes| == |img.dinodes|
    requires BlocksInv(img, k, t.dblocks) && InodeStep(img, k, t) == Ok(t')
    requires next <= m < |img.dinodes| && forall j :: next <= j < m ==> InodePasses(img, j)
    ensures Forward(img, k, t) == Forward(img, next, t')
    ensures forall j :: k <= j < m ==> InodePasses(img, j)
  {
    ForwardStep(img, k, t);
    InodeStepPassIff(img, k, t);
  }

  /** A failing forward pass from inode `k` reports the error of the
      first inode from `k` on that fails. */
  lemma {:induction false} ForwardFailure(img: Image, k: nat, t: Tables)
    requires WellFormed(img) && k <= |img.dinodes|
    requires |t.dblocks| == img.sb.size && |t.inodes| == |img.dinodes|
    requires BlocksInv(img, k, t.dblocks)
    ensures Forward(img, k, t).Err? ==>
              exists m :: k <= m < |img.dinodes| && (forall j :: k <= j < m ==> InodePasses(img, j)) &&
                !InodePasses(img, m) && InodeFails(img, m, Forward(img, k, t).error)
    decreases |img.dinodes| - k
  {
    if k < |img.dinodes| {
      if InodeStep(img, k, t).Err? {
        ForwardFailsAt(img, k, t);
      } else {
        var t' := InodeStep(img, k, t).value;
        var next: nat := k + 1;
        InodeStepBlocks(img, k, t);
        ForwardFailure(img, next, t');
        if Forward(img, next, t').Err? {
          var m :| next <= m < |img.dinodes| && (forall j :: next <= j < m ==> InodePasses(img, j)) &&
                   !InodePasses(img, m) && InodeFails(img, m, Forward(img, next, t').error);
          ForwardFailsAfter(img, k, t, next, t', m);
        } else {
          ForwardStep(img, k, t);
        }
      }
    }
  }

  /** The forward pass passes on every inode. */
  ghost predicate AllInodesPass(img: Image)
    requires WellFormed(img)
  {
    forall m :: 0 <= m < |img.dinodes| ==> InodePasses(img, m)
  }

  /** The error the link-count tests of inode `x` report, with the
      references counted over all directories. */
  function LinkError(img: Image, x: nat): FsError
    requires WellFormed(img) && x < |img.dinodes|
  {
    var refs := RefTotal(img, x, |img.dinodes|);
    if img.dinodes[x].itype != 0 && refs < 1 then InodeNotInDirectory
    else if img.dinodes[x].itype == T_FILE && img.dinodes[x].nlink != refs then BadFileRefCount
    else DirAppearsTwice
  }

  /** After a passing forward pass, the bitmap sweep passes exactly when
      every marked data block is claimed. */
  lemma SweepOutcome(img: Image, d: seq<Datablock>)
    requires WellFormed(img) && |d| == img.sb.size && BlocksInv(img, |img.dinodes|, d)
    ensures BitmapBacked(img, d) <==> MarkedBlocksClaimed(img)
  {
    UsedIffClaimedBefore(img, |img.dinodes|, d);
    if MarkedBlocksClaimed(img) {
      BlocksBackBitmap(img, d);
    }
  }

  /** After a passing forward pass, reconciliation passes exactly when the
      link counts agree with the entries, and otherwise reports the first
      inode whose link count does not. */
  lemma ReconcileLinks(img: Image, inodes: seq<InodeUse>)
    requires WellFormed(img) && |inodes| == |img.dinodes| && InodesInv(img, |img.dinodes|, inodes)
    ensures ReconcileFrom(img, inodes, ROOTINO).Ok? <==> forall x :: ROOTINO <= x < |img.dinodes| ==> LinkCountOk(img, x)
    ensures ReconcileFrom(img, inodes, ROOTINO).Err? ==>
              exists x :: ROOTINO <= x < |img.dinodes| && !LinkCountOk(img, x) &&
                (forall y :: ROOTINO <= y < x ==> LinkCountOk(img, y)) &&
                ReconcileFrom(img, inodes, ROOTINO).error == LinkError(img, x)
  {
    ReconcileOutcome(img, inodes, ROOTINO);
    assert forall x :: ROOTINO <= x < |img.dinodes| ==> (ReconcilePasses(img, inodes, x) <==> LinkCountOk(img, x));
  }

  /** A failing run reports, in this order: the error of the first inode
      that fails the forward pass; else that the bitmap marks an unclaimed
      data block; else the link-count error of the first inode whose link
      count disagrees with the entries. */
  lemma FsckError(img: Image)
    requires WellFormed(img) && Fsck(img).Err?
    ensures !AllInodesPass(img) ==>
              exists m :: 0 <= m < |img.dinodes| && (forall j :: 0 <= j < m ==> InodePasses(img, j)) &&
                !InodePasses(img, m) && InodeFails(img, m, Fsck(img).error)
    ensures AllInodesPass(img) && !MarkedBlocksClaimed(img) ==> Fsck(img).error == BitmapMarksUnused
    ensures AllInodesPass(img) && MarkedBlocksClaimed(img) ==>
              exists x :: ROOTINO <= x < |img.dinodes| && !LinkCountOk(img, x) &&
                (forall y :: ROOTINO <= y < x ==> LinkCountOk(img, y)) &&
                Fsck(img).error == LinkError(img, x)
  {
    var t0 := InitialTables(img.sb);
    assert InodesInv(img, 0, t0.inodes);
    assert BlocksInv(img, 0, t0.dblocks);
    ForwardPassIff(img, 0, t0);
    ForwardFailure(img, 0, t0);
    if Forward(img, 0, t0).Ok? {
      ForwardInodes(img, 0, t0);
      ForwardBlocks(img, 0, t0);
      var t := Forward(img, 0, t0).value;
      SweepOutcome(img, t.dblocks);
      ReconcileLinks(img, t.inodes);
    }
  }
}
