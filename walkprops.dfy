/** What the directory walk establishes, stated over the entries the walk
    reads: when it fails, which flags it ends with, how it changes the
    inode table (reference counts, the parent of the walked directory),
    and when the shape check passes. */
module FsWalkProps {
  import opened FsLayout
  import opened FsImage
  import opened FsSpec

  /** Entry `e` is a reference to inode `j` that the walk counts: the
      non-zero inode number `j` under a name other than "." and "..". */
  predicate RefersTo(e: DirEnt, j: nat)
  {
    e.inum == j && j != 0 && !IsDot(e) && !IsDotDot(e)
  }

  /** Number of entries among `es[i..]` that refer to inode `j`. */
  function RefsFrom(es: seq<DirEnt>, i: nat, j: nat): nat
    decreases |es| - i
  {
    if i >= |es| then 0 else (if RefersTo(es[i], j) then 1 else 0) + RefsFrom(es, i + 1, j)
  }

  /** Every entry among `es[i..]` with a non-zero inode number names an
      in-use inode. */
  predicate NoDangling(img: Image, es: seq<DirEnt>, i: nat)
  {
    forall x :: i <= x < |es| ==> es[x].inum == 0 || InUse(img, es[x].inum)
  }

  predicate HasDot(es: seq<DirEnt>, i: nat)
  {
    exists x :: i <= x < |es| && IsDot(es[x])
  }

  predicate HasDotDot(es: seq<DirEnt>, i: nat)
  {
    exists x :: i <= x < |es| && IsDotDot(es[x])
  }

  /** Some "." entry among `es[i..]` names directory `k` itself. */
  predicate HasSelfDot(es: seq<DirEnt>, i: nat, k: nat)
  {
    exists x :: i <= x < |es| && IsDot(es[x]) && es[x].inum == k
  }

  predicate HasNonZero(es: seq<DirEnt>, i: nat)
  {
    exists x :: i <= x < |es| && es[x].inum != 0
  }

  /** `es[x]` is the last ".." entry of `es`. */
  predicate LastDotDot(es: seq<DirEnt>, x: nat)
  {
    x < |es| && IsDotDot(es[x]) && forall y :: x < y < |es| ==> !IsDotDot(es[y])
  }

  /** The name tests of one entry: they set the flags the entry's name
      calls for and record a ".." entry as the parent of directory `k`;
      nothing else in the inode table changes. */
  lemma VisitNameEffect(w: WalkState, k: nat, e: DirEnt)
    requires k < |w.inodes|
    ensures var w1 := VisitName(w, k, e);
            && w1.dot == (w.dot || IsDot(e))
            && w1.dotdot == (w.dotdot || IsDotDot(e))
            && w1.self == (w.self || (IsDot(e) && e.inum == k))
            && |w1.inodes| == |w.inodes|
            && (forall j :: 0 <= j < |w.inodes| && j != k ==> w1.inodes[j] == w.inodes[j])
            && w1.inodes[k] == w.inodes[k].(parentinode := if IsDotDot(e) then e.inum else w.inodes[k].parentinode)
  {
  }

  /** The reference bookkeeping of one entry naming in-use inode `e.inum`:
      the count of the inode the entry refers to goes up by one and, in the
      root directory, the root's count is then set to 1; nothing else
      changes. */
  lemma CountRefEffect(inodes: seq<InodeUse>, k: nat, e: DirEnt)
    requires e.inum < |inodes| && k < |inodes| && e.inum != 0
    ensures var c := CountRef(inodes, k, e);
            && |c| == |inodes|
            && (forall j :: 0 <= j < |inodes| ==> c[j].inuse == inodes[j].inuse && c[j].parentinode == inodes[j].parentinode)
            && (forall j :: 0 <= j < |inodes| && !(k == ROOTINO && j == k) ==>
                  c[j].refcount == inodes[j].refcount + (if RefersTo(e, j) then 1 else 0))
            && (k == ROOTINO ==> c[k].refcount == 1)
  {
  }

  /** One entry step: it fails exactly on a non-zero inode number naming
      an inode that is not in use; otherwise it sets the flags the entry's
      name calls for, records a ".." entry as the directory's parent, adds
      one to the count of the inode the entry refers to, and, in the root
      directory, sets the root's count to 1 after every entry with a
      non-zero inode number. Nothing else changes. */
  lemma StepEntryEffect(img: Image, k: nat, w: WalkState, e: DirEnt)
    requires k < |w.inodes| && |w.inodes| == |img.dinodes|
    ensures StepEntry(img, k, w, e).Err? <==> e.inum != 0 && !InUse(img, e.inum)
    ensures StepEntry(img, k, w, e).Err? ==> StepEntry(img, k, w, e).error == RefToFreeInode
    ensures StepEntry(img, k, w, e).Ok? ==>
              var w1 := StepEntry(img, k, w, e).value;
              && w1.dot == (w.dot || IsDot(e))
              && w1.dotdot == (w.dotdot || IsDotDot(e))
              && w1.self == (w.self || (IsDot(e) && e.inum == k))
              && |w1.inodes| == |w.inodes|
              && (forall j :: 0 <= j < |w.inodes| ==> w1.inodes[j].inuse == w.inodes[j].inuse)
              && (forall j :: 0 <= j < |w.inodes| && j != k ==> w1.inodes[j].parentinode == w.inodes[j].parentinode)
              && w1.inodes[k].parentinode == (if IsDotDot(e) then e.inum else w.inodes[k].parentinode)
              && (forall j :: 0 <= j < |w.inodes| && !(k == ROOTINO && j == k) ==>
                    w1.inodes[j].refcount == w.inodes[j].refcount + (if RefersTo(e, j) then 1 else 0))
              && (k == ROOTINO ==> w1.inodes[k].refcount == if e.inum != 0 then 1 else w.inodes[k].refcount)
  {
    var v := VisitName(w, k, e);
    VisitNameEffect(w, k, e);
    if e.inum != 0 && InUse(img, e.inum) {
      CountRefEffect(v.inodes, k, e);
    } else if e.inum == 0 {
      assert forall j :: !RefersTo(e, j);
    }
  }

  /** The walk from entry `i` takes entry `i`, then walks on from `i + 1`. */
  lemma WalkFromUnfold(img: Image, k: nat, es: seq<DirEnt>, i: nat, w: WalkState)
    requires i < |es| && k < |w.inodes| && |w.inodes| == |img.dinodes|
    ensures StepEntry(img, k, w, es[i]).Err? ==> WalkFrom(img, k, es, i, w) == Err(StepEntry(img, k, w, es[i]).error)
    ensures StepEntry(img, k, w, es[i]).Ok? ==>
              WalkFrom(img, k, es, i, w) == WalkFrom(img, k, es, i + 1, StepEntry(img, k, w, es[i]).value)
  {
    assert WalkFrom(img, k, es, i, w) == WalkEntryThen(img, k, es, i, w);
  }

  /** The walk fails exactly when some entry it reads has a non-zero inode
      number naming an inode that is not in use, and then with
      RefToFreeInode. */
  lemma {:induction false} WalkFromOutcome(img: Image, k: nat, es: seq<DirEnt>, i: nat, w: WalkState)
    requires i <= |es| && k < |w.inodes| && |w.inodes| == |img.dinodes|
    ensures WalkFrom(img, k, es, i, w).Err? <==> !NoDangling(img, es, i)
    ensures WalkFrom(img, k, es, i, w).Err? ==> WalkFrom(img, k, es, i, w).error == RefToFreeInode
    decreases |es| - i
  {
    if i < |es| {
      WalkFromUnfold(img, k, es, i, w);
      StepEntryEffect(img, k, w, es[i]);
      if StepEntry(img, k, w, es[i]).Ok? {
        WalkFromOutcome(img, k, es, i + 1, StepEntry(img, k, w, es[i]).value);
        assert NoDangling(img, es, i) <==> NoDangling(img, es, i + 1) by {
          if NoDangling(img, es, i + 1) {
            forall x | i <= x < |es| ensures es[x].inum == 0 || InUse(img, es[x].inum) {
              if x > i { assert i + 1 <= x; }
            }
          }
        }
      }
    }
  }

  /** A walk that succeeds ends with the "." flag set exactly when it was
      set before or some entry read is "."; likewise for ".." and for a "."
      entry naming the directory itself. */
  lemma {:induction false} WalkFromFlags(img: Image, k: nat, es: seq<DirEnt>, i: nat, w: WalkState)
    requires i <= |es| && k < |w.inodes| && |w.inodes| == |img.dinodes|
    requires WalkFrom(img, k, es, i, w).Ok?
    ensures var w' := WalkFrom(img, k, es, i, w).value;
            && (w'.dot <==> w.dot || HasDot(es, i))
            && (w'.dotdot <==> w.dotdot || HasDotDot(es, i))
            && (w'.self <==> w.self || HasSelfDot(es, i, k))
    decreases |es| - i
  {
    if i < |es| {
      WalkFromUnfold(img, k, es, i, w);
      StepEntryEffect(img, k, w, es[i]);
      var w1 := StepEntry(img, k, w, es[i]).value;
      WalkFromFlags(img, k, es, i + 1, w1);
      assert HasDot(es, i) <==> IsDot(es[i]) || HasDot(es, i + 1) by {
        if HasDot(es, i) {
          var x :| i <= x < |es| && IsDot(es[x]);
          if x > i { assert i + 1 <= x; }
        }
      }
      assert HasDotDot(es, i) <==> IsDotDot(es[i]) || HasDotDot(es, i + 1) by {
        if HasDotDot(es, i) {
          var x :| i <= x < |es| && IsDotDot(es[x]);
          if x > i { assert i + 1 <= x; }
        }
      }
      assert HasSelfDot(es, i, k) <==> (IsDot(es[i]) && es[i].inum == k) || HasSelfDot(es, i + 1, k) by {
        if HasSelfDot(es, i, k) {
          var x :| i <= x < |es| && IsDot(es[x]) && es[x].inum == k;
          if x > i { assert i + 1 <= x; }
        }
      }
    }
  }

  /** A walk that succeeds adds to the count of inode `j` one for every
      entry read that refers to `j` (the root's own count while the root
      directory is walked aside). */
  lemma {:induction false} WalkFromRefs(img: Image, k: nat, es: seq<DirEnt>, i: nat, w: WalkState, j: nat)
    requires i <= |es| && k < |w.inodes| && |w.inodes| == |img.dinodes|
    requires WalkFrom(img, k, es, i, w).Ok? && j < |w.inodes| && !(k == ROOTINO && j == k)
    ensures WalkFrom(img, k, es, i, w).value.inodes[j].refcount == w.inodes[j].refcount + RefsFrom(es, i, j)
    decreases |es| - i
  {
    if i < |es| {
      WalkFromUnfold(img, k, es, i, w);
      StepEntryEffect(img, k, w, es[i]);
      WalkFromRefs(img, k, es, i + 1, StepEntry(img, k, w, es[i]).value, j);
    }
  }

  /** A walk of the root directory that succeeds leaves the root's count at
      1 when some entry read has a non-zero inode number, and unchanged
      otherwise. */
  lemma {:induction false} WalkFromRootRefs(img: Image, es: seq<DirEnt>, i: nat, w: WalkState)
    requires i <= |es| && ROOTINO < |w.inodes| && |w.inodes| == |img.dinodes|
    requires WalkFrom(img, ROOTINO, es, i, w).Ok?
    ensures WalkFrom(img, ROOTINO, es, i, w).value.inodes[ROOTINO].refcount
            == if HasNonZero(es, i) then 1 else w.inodes[ROOTINO].refcount
    decreases |es| - i
  {
    if i < |es| {
      WalkFromUnfold(img, ROOTINO, es, i, w);
      StepEntryEffect(img, ROOTINO, w, es[i]);
      var w1 := StepEntry(img, ROOTINO, w, es[i]).value;
      WalkFromRootRefs(img, es, i + 1, w1);
      assert HasNonZero(es, i) <==> es[i].inum != 0 || HasNonZero(es, i + 1) by {
        if HasNonZero(es, i) {
          var x :| i <= x < |es| && es[x].inum != 0;
          if x > i { assert i + 1 <= x; }
        }
      }
    }
  }

  /** A walk that succeeds changes no in-use flag and no parent other than
      that of the walked directory `k`. */
  lemma {:induction false} WalkFromKeeps(img: Image, k: nat, es: seq<DirEnt>, i: nat, w: WalkState, j: nat)
    requires i <= |es| && k < |w.inodes| && |w.inodes| == |img.dinodes|
    requires WalkFrom(img, k, es, i, w).Ok? && j < |w.inodes|
    ensures WalkFrom(img, k, es, i, w).value.inodes[j].inuse == w.inodes[j].inuse
    ensures j != k ==> WalkFrom(img, k, es, i, w).value.inodes[j].parentinode == w.inodes[j].parentinode
    decreases |es| - i
  {
    if i < |es| {
      WalkFromUnfold(img, k, es, i, w);
      StepEntryEffect(img, k, w, es[i]);
      WalkFromKeeps(img, k, es, i + 1, StepEntry(img, k, w, es[i]).value, j);
    }
  }

  /** A walk that succeeds records as the parent of directory `k` the inode
      number of the last ".." entry it reads, and keeps the old parent when
      it reads none. */
  lemma {:induction false} WalkFromParent(img: Image, k: nat, es: seq<DirEnt>, i: nat, w: WalkState)
    requires i <= |es| && k < |w.inodes| && |w.inodes| == |img.dinodes|
    requires WalkFrom(img, k, es, i, w).Ok?
    ensures !HasDotDot(es, i) ==> WalkFrom(img, k, es, i, w).value.inodes[k].parentinode == w.inodes[k].parentinode
    ensures forall x :: i <= x && LastDotDot(es, x) ==> WalkFrom(img, k, es, i, w).value.inodes[k].parentinode == es[x].inum
    decreases |es| - i
  {
    if i < |es| {
      WalkFromUnfold(img, k, es, i, w);
      StepEntryEffect(img, k, w, es[i]);
      var w1 := StepEntry(img, k, w, es[i]).value;
      WalkFromParent(img, k, es, i + 1, w1);
      var next: nat := i + 1;
      if !HasDotDot(es, next) && IsDotDot(es[i]) {
        assert forall x :: i < x && LastDotDot(es, x) ==> HasDotDot(es, next);
      }
      if HasDotDot(es, i + 1) {
        var y :| i + 1 <= y < |es| && IsDotDot(es[y]);
        assert !LastDotDot(es, i);
      }
    }
  }

  /** The check of directory `k` passes exactly when every entry it reads
      with a non-zero inode number names an in-use inode and the entries
      include ".", ".." and a "." naming `k`; a dangling entry is reported
      before a missing name. */
  lemma DirCheckOutcome(img: Image, k: nat, inodes: seq<InodeUse>)
    requires WellFormed(img) && k < |img.dinodes| && |inodes| == |img.dinodes|
    ensures var es := Entries(img, img.dinodes[k]);
            DirCheck(img, k, inodes).Ok? <==>
              NoDangling(img, es, 0) && HasDot(es, 0) && HasDotDot(es, 0) && HasSelfDot(es, 0, k)
    ensures var es := Entries(img, img.dinodes[k]);
            DirCheck(img, k, inodes).Err? ==>
              DirCheck(img, k, inodes).error == if NoDangling(img, es, 0) then DirNotFormatted else RefToFreeInode
  {
    var es := Entries(img, img.dinodes[k]);
    var w := WalkState(false, false, false, inodes);
    WalkFromOutcome(img, k, es, 0, w);
    if WalkFrom(img, k, es, 0, w).Ok? {
      WalkFromFlags(img, k, es, 0, w);
    }
  }

  /** The inode table after a passing check of directory `k`: in-use flags
      unchanged; the count of every inode raised by the number of entries
      referring to it, except that the root's count, while the root is
      checked, ends at 1; the parent of `k` is the inode number of its last
      ".." entry; no other parent changes. */
  lemma DirCheckTable(img: Image, k: nat, inodes: seq<InodeUse>)
    requires WellFormed(img) && k < |img.dinodes| && |inodes| == |img.dinodes|
    requires DirCheck(img, k, inodes).Ok?
    ensures var es := Entries(img, img.dinodes[k]);
            var after := DirCheck(img, k, inodes).value;
            && |after| == |inodes|
            && (forall j :: 0 <= j < |inodes| ==> after[j].inuse == inodes[j].inuse)
            && (forall j :: 0 <= j < |inodes| && j != k ==> after[j].parentinode == inodes[j].parentinode)
            && (forall x: nat :: LastDotDot(es, x) ==> after[k].parentinode == es[x].inum)
            && (forall j :: 0 <= j < |inodes| && !(k == ROOTINO && j == k) ==>
                  after[j].refcount == inodes[j].refcount + RefsFrom(es, 0, j))
            && (k == ROOTINO ==> after[k].refcount == 1)
  {
    var es := Entries(img, img.dinodes[k]);
    var w := WalkState(false, false, false, inodes);
    WalkFromFlags(img, k, es, 0, w);
    WalkFromParent(img, k, es, 0, w);
    var after := DirCheck(img, k, inodes).value;
    forall j | 0 <= j < |inodes|
      ensures after[j].inuse == inodes[j].inuse
      ensures j != k ==> after[j].parentinode == inodes[j].parentinode
      ensures !(k == ROOTINO && j == k) ==> after[j].refcount == inodes[j].refcount + RefsFrom(es, 0, j)
    {
      WalkFromKeeps(img, k, es, 0, w, j);
      if !(k == ROOTINO && j == k) {
        WalkFromRefs(img, k, es, 0, w, j);
      }
    }
    if k == ROOTINO {
      WalkFromRootRefs(img, es, 0, w);
      var x :| 0 <= x < |es| && IsDot(es[x]) && es[x].inum == k;
      assert HasNonZero(es, 0);
    }
  }
}
