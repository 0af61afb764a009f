/** What the block-usage bookkeeping of one inode establishes: when its
    claims fail, and what they record in the usage table. */
module FsClaimProps {
  import opened FsLayout
  import opened FsImage
  import opened FsSpec

  /** The non-zero addresses among `slots[i..]` are pairwise distinct. */
  predicate DistinctFrom(slots: seq<Slot>, i: nat)
  {
    forall s, t :: i <= s < t < |slots| && slots[s].addr != 0 ==> slots[s].addr != slots[t].addr
  }

  /** Every non-zero address among `slots[i..]` is marked in the bitmap and
      still unclaimed in `d`, and no two of them coincide. */
  predicate ClaimableFrom(img: Image, slots: seq<Slot>, i: nat, d: seq<Datablock>)
    requires SlotsFit(slots, |d|)
  {
    && (forall s :: i <= s < |slots| && slots[s].addr != 0 ==>
          IsBlockUsed(img, slots[s].addr) && d[slots[s].addr].usecount == 0)
    && DistinctFrom(slots, i)
  }

  /** Block `b` is one of the non-zero addresses among `slots[i..]`. */
  predicate AmongFrom(slots: seq<Slot>, i: nat, b: nat)
  {
    b != 0 && exists s :: i <= s < |slots| && slots[s].addr == b
  }

  /** One claim: a zero address changes nothing; otherwise a clear bitmap
      bit is reported first, then a block already used; a claim that
      passes records the block as used once, by inode `k`, as `s.kind`. */
  lemma ClaimSlotOutcome(img: Image, k: nat, s: Slot, d: seq<Datablock>)
    requires s.addr < |d|
    ensures ClaimSlot(img, k, s, d).Err? <==>
              s.addr != 0 && (!IsBlockUsed(img, s.addr) || d[s.addr].usecount != 0)
    ensures ClaimSlot(img, k, s, d).Err? ==>
              ClaimSlot(img, k, s, d).error == if IsBlockUsed(img, s.addr) then s.dup else MarkedFreeInBitmap
    ensures ClaimSlot(img, k, s, d).Ok? ==>
              ClaimSlot(img, k, s, d).value == if s.addr == 0 then d else d[s.addr := Datablock(true, 1, k, s.kind)]
  {
  }

  /** The claims from slot `i` on take slot `i`, then go on from `i + 1`. */
  lemma ClaimFromUnfold(img: Image, k: nat, slots: seq<Slot>, i: nat, d: seq<Datablock>)
    requires i < |slots| && SlotsFit(slots, |d|)
    ensures ClaimSlot(img, k, slots[i], d).Err? ==> ClaimFrom(img, k, slots, i, d) == Err(ClaimSlot(img, k, slots[i], d).error)
    ensures ClaimSlot(img, k, slots[i], d).Ok? ==>
              ClaimFrom(img, k, slots, i, d) == ClaimFrom(img, k, slots, i + 1, ClaimSlot(img, k, slots[i], d).value)
  {
    assert ClaimFrom(img, k, slots, i, d) == ClaimSlotThen(img, k, slots, i, d);
  }

  /** The claims of `slots[i..]` pass exactly when every non-zero address
      among them is marked in the bitmap, still unclaimed, and claimed only
      once. */
  lemma {:induction false} ClaimFromOutcome(img: Image, k: nat, slots: seq<Slot>, i: nat, d: seq<Datablock>)
    requires i <= |slots| && SlotsFit(slots, |d|)
    ensures ClaimFrom(img, k, slots, i, d).Ok? <==> ClaimableFrom(img, slots, i, d)
    decreases |slots| - i
  {
    if i < |slots| {
      ClaimFromUnfold(img, k, slots, i, d);
      ClaimSlotOutcome(img, k, slots[i], d);
      var a := slots[i].addr;
      if ClaimSlot(img, k, slots[i], d).Ok? {
        var d1 := ClaimSlot(img, k, slots[i], d).value;
        ClaimFromOutcome(img, k, slots, i + 1, d1);
        if a == 0 {
          assert ClaimableFrom(img, slots, i, d) <==> ClaimableFrom(img, slots, i + 1, d1);
        } else {
          // the claimed block now has usecount 1, every other entry is as before
          assert ClaimableFrom(img, slots, i, d) <==> ClaimableFrom(img, slots, i + 1, d1) by {
            if ClaimableFrom(img, slots, i + 1, d1) {
              assert d1[a].usecount == 1;
            }
            if ClaimableFrom(img, slots, i, d) {
              forall t | i < t < |slots| && slots[t].addr != 0
                ensures d1[slots[t].addr] == d[slots[t].addr]
              {
                assert slots[t].addr != a;
              }
            }
          }
        }
      } else {
        assert !ClaimableFrom(img, slots, i, d);
      }
    }
  }

  /** The table after the claims of `slots[i..]` pass: every non-zero
      address among them is recorded as used once, by `k`, with its slot's
      kind; every other block is as before. */
  lemma {:induction false} ClaimFromEffect(img: Image, k: nat, slots: seq<Slot>, i: nat, d: seq<Datablock>)
    requires i <= |slots| && SlotsFit(slots, |d|) && ClaimFrom(img, k, slots, i, d).Ok?
    ensures forall s :: i <= s < |slots| && slots[s].addr != 0 ==>
              ClaimFrom(img, k, slots, i, d).value[slots[s].addr] == Datablock(true, 1, k, slots[s].kind)
    ensures forall b :: 0 <= b < |d| && !AmongFrom(slots, i, b) ==> ClaimFrom(img, k, slots, i, d).value[b] == d[b]
    decreases |slots| - i
  {
    if i < |slots| {
      ClaimFromUnfold(img, k, slots, i, d);
      ClaimSlotOutcome(img, k, slots[i], d);
      var d1 := ClaimSlot(img, k, slots[i], d).value;
      ClaimFromEffect(img, k, slots, i + 1, d1);
      ClaimFromOutcome(img, k, slots, i, d);
      var r := ClaimFrom(img, k, slots, i, d).value;
      var a := slots[i].addr;
      if a != 0 {
        assert !AmongFrom(slots, i + 1, a) by {
          forall t | i + 1 <= t < |slots| ensures slots[t].addr != a {
            assert i < t;
          }
        }
      }
      assert forall b :: AmongFrom(slots, i + 1, b) ==> AmongFrom(slots, i, b);
    }
  }

  /** Slot `s`, claimed after slots `i..s-1`, passes: its address is zero,
      or it is marked in the bitmap, still unclaimed in `d`, and none of
      slots `i..s-1` names the same block. */
  predicate SlotClaimable(img: Image, slots: seq<Slot>, i: nat, s: nat, d: seq<Datablock>)
    requires SlotsFit(slots, |d|) && s < |slots|
  {
    var a := slots[s].addr;
    a == 0 || (IsBlockUsed(img, a) && d[a].usecount == 0 && forall u :: i <= u < s ==> slots[u].addr != a)
  }

  /** ClaimableFrom, slot by slot. */
  lemma ClaimableFromSlots(img: Image, slots: seq<Slot>, i: nat, d: seq<Datablock>)
    requires SlotsFit(slots, |d|)
    ensures ClaimableFrom(img, slots, i, d) <==> forall s :: i <= s < |slots| ==> SlotClaimable(img, slots, i, s, d)
  {
    if forall s :: i <= s < |slots| ==> SlotClaimable(img, slots, i, s, d) {
      forall s | i <= s < |slots| && slots[s].addr != 0
        ensures IsBlockUsed(img, slots[s].addr) && d[slots[s].addr].usecount == 0
      {
        assert SlotClaimable(img, slots, i, s, d);
      }
      forall s, t | i <= s < t < |slots| && slots[s].addr != 0 ensures slots[s].addr != slots[t].addr {
        assert SlotClaimable(img, slots, i, t, d);
      }
    }
    if ClaimableFrom(img, slots, i, d) {
      forall s | i <= s < |slots| ensures SlotClaimable(img, slots, i, s, d) {
        assert forall u :: i <= u < s && slots[u].addr != 0 ==> slots[u].addr != slots[s].addr;
      }
    }
  }

  /** A claim of slot `i` that passes: slot `i` was claimable, and each
      later slot is claimable after it exactly when it was claimable
      together with it. */
  lemma ClaimSlotShift(img: Image, k: nat, slots: seq<Slot>, i: nat, d: seq<Datablock>)
    requires i < |slots| && SlotsFit(slots, |d|) && ClaimSlot(img, k, slots[i], d).Ok?
    ensures SlotClaimable(img, slots, i, i, d)
    ensures SlotsFit(slots, |ClaimSlot(img, k, slots[i], d).value|)
    ensures forall t :: i < t < |slots| ==>
              (SlotClaimable(img, slots, i + 1, t, ClaimSlot(img, k, slots[i], d).value) <==> SlotClaimable(img, slots, i, t, d))
  {
    var d1 := ClaimSlot(img, k, slots[i], d).value;
    var a := slots[i].addr;
    ClaimSlotOutcome(img, k, slots[i], d);
    forall t | i < t < |slots|
      ensures SlotClaimable(img, slots, i + 1, t, d1) <==> SlotClaimable(img, slots, i, t, d)
    {
      var b := slots[t].addr;
      if a != 0 && b == a {
        assert d1[a].usecount == 1;
      } else if b != 0 {
        assert d1[b] == d[b];
      }
    }
  }

  /** The first slot that is not claimable after a passing claim of slot
      `i` is the first one that is not claimable from slot `i` on. */
  lemma FirstUnclaimableShift(img: Image, k: nat, slots: seq<Slot>, i: nat, d: seq<Datablock>, next: nat, d1: seq<Datablock>, s: nat)
    requires i < s < |slots| && SlotsFit(slots, |d|) && next == i + 1
    requires ClaimSlot(img, k, slots[i], d) == Ok(d1) && SlotsFit(slots, |d1|)
    requires !SlotClaimable(img, slots, next, s, d1)
    requires forall u :: next <= u < s ==> SlotClaimable(img, slots, next, u, d1)
    ensures !SlotClaimable(img, slots, i, s, d)
    ensures forall u :: i <= u < s ==> SlotClaimable(img, slots, i, u, d)
  {
    ClaimSlotShift(img, k, slots, i, d);
  }

  /** Claims of `slots[i..]` that fail stop at the first slot that is not
      claimable: a block whose bitmap bit is clear is reported as such,
      any other as a second use of its kind. */
  lemma {:induction false} ClaimFromFailure(img: Image, k: nat, slots: seq<Slot>, i: nat, d: seq<Datablock>)
    requires i <= |slots| && SlotsFit(slots, |d|)
    ensures ClaimFrom(img, k, slots, i, d).Err? ==>
              exists s :: i <= s < |slots| && !SlotClaimable(img, slots, i, s, d) &&
                (forall u :: i <= u < s ==> SlotClaimable(img, slots, i, u, d)) &&
                ClaimFrom(img, k, slots, i, d).error == if IsBlockUsed(img, slots[s].addr) then slots[s].dup else MarkedFreeInBitmap
    decreases |slots| - i
  {
    if i < |slots| {
      ClaimFromUnfold(img, k, slots, i, d);
      if ClaimSlot(img, k, slots[i], d).Err? {
        ClaimSlotOutcome(img, k, slots[i], d);
        assert !SlotClaimable(img, slots, i, i, d);
      } else {
        var d1 := ClaimSlot(img, k, slots[i], d).value;
        var next: nat := i + 1;
        ClaimFromFailure(img, k, slots, next, d1);
        if ClaimFrom(img, k, slots, i, d).Err? {
          var s :| next <= s < |slots| && !SlotClaimable(img, slots, next, s, d1) &&
                (forall u :: next <= u < s ==> SlotClaimable(img, slots, next, u, d1)) &&
                ClaimFrom(img, k, slots, next, d1).error == if IsBlockUsed(img, slots[s].addr) then slots[s].dup else MarkedFreeInBitmap;
          FirstUnclaimableShift(img, k, slots, i, d, next, d1, s);
        }
      }
    }
  }
}
