/** Ownership in terms of the bits and references on the disk, and the image that mkfs makes. */
module FsImages {
  import opened Blocks
  import opened FsSpec

  ghost predicate Refers(blocks: Image, inodes: Table, b: nat, i: nat, s: nat) {
    i < |inodes| && s < NSLOTS && |inodes[i].addrs| == NDIRECT + 1 && Ref(blocks, inodes[i], s) == b
  }

  ghost predicate Referenced(blocks: Image, inodes: Table, b: nat) {
    exists i, s :: Refers(blocks, inodes, b, i, s)
  }

  /** A bit is set iff the block is metadata or referenced, and a block is referenced from one place only. */
  lemma BitmapExact(sb: Super, blocks: Image, inodes: Table, owner: seq<Owner>, b: nat)
    requires Owned(sb, blocks, inodes, owner) && NoneHeld(owner) && b < sb.size
    ensures Bit(sb, blocks, b) <==> b < sb.nmeta || Referenced(blocks, inodes, b)
    ensures b > 0 ==> forall i, s, j, t :: Refers(blocks, inodes, b, i, s) && Refers(blocks, inodes, b, j, t) ==>
      i == j && s == t
    ensures 0 < b < sb.nmeta ==> forall i, s :: !Refers(blocks, inodes, b, i, s)
  {
    if sb.nmeta <= b && Bit(sb, blocks, b) {
      assert owner[b].By?;
      assert Refers(blocks, inodes, b, owner[b].i, owner[b].s);
    }
    forall i, s | Refers(blocks, inodes, b, i, s) && b > 0 ensures owner[b] == By(i, s) {
    }
  }

  /**
   What a file system checker would ask for: a bit is set exactly for metadata and for referenced blocks, and no
   block outside the data area, and no block twice, is referenced.
   */
  ghost predicate Consistent(sb: Super, blocks: Image, inodes: Table) {
    && sb.Valid() && |blocks| == sb.size && |inodes| == sb.ninodes && GoodTable(inodes)
    && (forall b :: 0 <= b < sb.size ==>
          (Bit(sb, blocks, b) <==> b < sb.nmeta || Referenced(blocks, inodes, b)))
    && (forall b: nat, i: nat, s: nat :: Refers(blocks, inodes, b, i, s) && b > 0 ==> sb.nmeta <= b < sb.size)
    && forall b: nat, i: nat, s: nat, j: nat, t: nat ::
         Refers(blocks, inodes, b, i, s) && Refers(blocks, inodes, b, j, t) && b > 0 ==>
         i == j && s == t
  }

  ghost function FindOwner(sb: Super, blocks: Image, inodes: Table, b: nat): Owner {
    if b < sb.nmeta then Meta
    else if Referenced(blocks, inodes, b) then
      var i, s :| Refers(blocks, inodes, b, i, s);
      By(i, s)
    else Free
  }

  /** Each block can be given one owner if and only if the bitmap and the references are consistent. */
  lemma OwnedExactly(sb: Super, blocks: Image, inodes: Table)
    ensures Consistent(sb, blocks, inodes) <==> exists owner :: Owned(sb, blocks, inodes, owner) && NoneHeld(owner)
  {
    if Consistent(sb, blocks, inodes) {
      OwnersExist(sb, blocks, inodes);
    }
    if owner :| Owned(sb, blocks, inodes, owner) && NoneHeld(owner) {
      OwnedConsistent(sb, blocks, inodes, owner);
    }
  }

  lemma OwnersExist(sb: Super, blocks: Image, inodes: Table)
    requires Consistent(sb, blocks, inodes)
    ensures exists owner :: Owned(sb, blocks, inodes, owner) && NoneHeld(owner)
  {
    hide Bit, Ref;
    var owner := seq(sb.size, (b: nat) => FindOwner(sb, blocks, inodes, b));
    forall i, s {:trigger Ref(blocks, inodes[i], s)} | 0 <= i < |inodes| && 0 <= s < NSLOTS &&
      Ref(blocks, inodes[i], s) != 0
      ensures Ref(blocks, inodes[i], s) < |owner| && owner[Ref(blocks, inodes[i], s)] == By(i, s)
    {
      assert Refers(blocks, inodes, Ref(blocks, inodes[i], s), i, s);
    }
    assert Owned(sb, blocks, inodes, owner) && NoneHeld(owner);
  }

  lemma OwnedConsistent(sb: Super, blocks: Image, inodes: Table, owner: seq<Owner>)
    requires Owned(sb, blocks, inodes, owner) && NoneHeld(owner)
    ensures Consistent(sb, blocks, inodes)
  {
    hide Bit;
    forall b: nat, i: nat, s: nat | Refers(blocks, inodes, b, i, s) && b > 0
      ensures sb.nmeta <= b < sb.size && owner[b] == By(i, s)
    {
    }
    forall b | 0 <= b < sb.size
      ensures Bit(sb, blocks, b) <==> b < sb.nmeta || Referenced(blocks, inodes, b)
    {
      BitmapExact(sb, blocks, inodes, owner, b);
    }
  }

  // ----- bitmaps -----

  ghost predicate SameButBits(sb: Super, a: Image, b: Image) {
    |a| == |b| && forall x :: 0 <= x < |a| && !sb.IsBitmap(x) ==> b[x] == a[x]
  }

  lemma {:induction false} ZeroBits(k: nat)
    ensures !TestBit(0, k)
  {
    if k > 0 {
      ZeroBits(k - 1);
    }
  }

  /** A zeroed bitmap has no bit set. */
  lemma NoBits(sb: Super, img: Image)
    requires sb.Valid() && |img| == sb.size && forall x :: 0 <= x < sb.size && sb.IsBitmap(x) ==> img[x] == ZERO_BLOCK
    ensures forall b :: 0 <= b < sb.size ==> !Bit(sb, img, b)
  {
    forall b | 0 <= b < sb.size ensures !Bit(sb, img, b) {
      ZeroBits(b % 8);
      BitPlace(b, b);
      sb.BBlockIsBitmap(b);
    }
  }

  /** The same image with a bitmap in which exactly the first k bits are set. */
  lemma {:induction false} FirstBits(sb: Super, zero: Image, k: nat) returns (blocks: Image)
    requires sb.Valid() && k <= |zero| == sb.size
    requires forall x :: 0 <= x < sb.size && sb.IsBitmap(x) ==> zero[x] == ZERO_BLOCK
    ensures SameButBits(sb, zero, blocks)
    ensures forall b :: 0 <= b < sb.size ==> (Bit(sb, blocks, b) <==> b < k)
  {
    if k == 0 {
      blocks := zero;
      NoBits(sb, zero);
    } else {
      var before := FirstBits(sb, zero, k - 1);
      blocks := PutBit(sb, before, k - 1, true);
      sb.BBlockIsBitmap(k - 1);
      forall b | 0 <= b < sb.size ensures Bit(sb, blocks, b) <==> b < k {
        PutBitBits(sb, before, k - 1, true, b);
      }
    }
  }

  lemma EmptyOwned(sb: Super, blocks: Image, inodes: Table, owner: seq<Owner>)
    requires sb.Valid() && |blocks| == |owner| == sb.size && |inodes| == sb.ninodes && GoodTable(inodes)
    requires forall b :: 0 <= b < sb.size ==> (Bit(sb, blocks, b) <==> b < sb.nmeta)
    requires forall b :: 0 <= b < sb.size ==> owner[b] == if b < sb.nmeta then Meta else Free
    requires forall i :: 0 <= i < |inodes| ==> inodes[i].addrs == seq(NDIRECT + 1, _ => 0)
    ensures Owned(sb, blocks, inodes, owner)
  {
  }

  /**
   mkfs rounds the size of the root directory up. That leaves a directory without holes if and only if the entries
   do not fill whole blocks: if they do, the size grows by a block that is not there.
   */
  lemma RootRounding(b: Image, d: Dinode)
    requires Mapped(b, d) && (d.size / BSIZE + 1) * BSIZE <= MAXFILE * BSIZE
    requires forall bn {:trigger Slot(bn)} :: 0 <= bn < MAXFILE && bn * BSIZE >= d.size ==> Ref(b, d, Slot(bn)) == 0
    ensures Mapped(b, d.(size := (d.size / BSIZE + 1) * BSIZE)) <==> d.size % BSIZE != 0
  {
    var d' := d.(size := (d.size / BSIZE + 1) * BSIZE);
    SameAddrsRefs(b, d, d');
    hide Ref;
    var last := d.size / BSIZE;
    assert Ref(b, d', Slot(last)) == Ref(b, d, Slot(last));
    forall bn {:trigger Slot(bn)} | 0 <= bn < MAXFILE && bn * BSIZE < d'.size ensures bn <= last {
    }
  }
}
