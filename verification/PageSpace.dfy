/** Taking and giving back space on a b-tree page, whatever the cell-pointer array says.

    The methods work on the page's bytes; `top`, `frag`, `used` and `free` are what the bytes
    mean. */
module PageSpace {
  import opened Bytes
  import opened Blocks
  import opened PageLayout
  import opened PageBytes
  import opened PageImage

  /** put2byte. */
  method Write2(a: array<byte>, i: nat, v: nat)
    requires i + 1 < a.Length
    modifies a
    ensures a[..] == Put2(old(a[..]), i, v)
  {
    a[i] := v / 256 % 256;
    a[i + 1] := v % 256;
  }

  method Write1(a: array<byte>, i: nat, v: byte)
    requires i < a.Length
    modifies a
    ensures a[..] == old(a[..])[i := v]
  {
    a[i] := v;
  }

  /** memcpy, or memmove within one buffer. */
  method CopyTo(a: array<byte>, dst: nat, from: array<byte>, src: nat, n: nat)
    requires dst + n <= a.Length && src + n <= from.Length
    modifies a
    ensures a[..] == Copied(old(a[..]), dst, old(from[..]), src, n)
  {
    forall j | dst <= j < dst + n {
      a[j] := from[j - dst + src];
    }
  }

  method Write4(a: array<byte>, i: nat, v: nat)
    requires i + 3 < a.Length
    modifies a
    ensures a[..] == Put4(old(a[..]), i, v)
  {
    a[i] := v / 0x100_0000 % 256;
    a[i + 1] := v / 0x1_0000 % 256;
    a[i + 2] := v / 0x100 % 256;
    a[i + 3] := v % 256;
  }

  /** The writes of freeSpace when the freed block joins the list. */
  method WriteJoin(a: array<byte>, h: nat, nFrag: byte, iPtr: nat, iStart: nat, iSize: nat, iFreeBlk: nat)
    requires h + 7 < a.Length && iPtr + 1 < a.Length && iStart + 3 < a.Length
    modifies a
    ensures a[..] == JoinBytes(old(a[..]), h, nFrag, iPtr, Block(iStart, iSize), iFreeBlk)
  {
    Write1(a, h + 7, nFrag);
    Write2(a, iPtr, iStart);
    Write2(a, iStart, iFreeBlk);
    Write2(a, iStart + 2, iSize);
  }

  /** ... and when it joins the gap. */
  method WriteShrink(a: array<byte>, h: nat, nFrag: byte, iStart: nat, iSize: nat, iFreeBlk: nat)
    requires h + 7 < a.Length && iStart + 3 < a.Length
    modifies a
    ensures a[..] == ShrinkBytes(old(a[..]), h, nFrag, Block(iStart, iSize), iFreeBlk)
  {
    Write1(a, h + 7, nFrag);
    Write2(a, h + 1, iFreeBlk);
    Write2(a, h + 5, iStart + iSize);
    Write2(a, iStart, iFreeBlk);
    Write2(a, iStart + 2, iSize);
  }

  // ----- pageFindSlot

  /** The number of the first freeblock of at least n bytes. */
  ghost function FirstFit(free: seq<Block>, n: nat): (k: nat)
    ensures k <= |free| && (k < |free| ==> free[k].size >= n)
    ensures forall l :: 0 <= l < k ==> free[l].size < n
  {
    if free == [] || free[0].size >= n then 0 else 1 + FirstFit(free[1..], n)
  }

  lemma {:induction false} FirstFitIs(free: seq<Block>, n: nat, k: nat)
    requires k <= |free| && (k < |free| ==> free[k].size >= n) && forall l :: 0 <= l < k ==> free[l].size < n
    ensures FirstFit(free, n) == k
  {
    if k == 0 {
    } else {
      FirstFitIs(free[1..], n, k - 1);
    }
  }

  /** Where pageFindSlot finds n bytes; 0 for nowhere. */
  ghost function Slot(free: seq<Block>, frag: nat, n: nat): int {
    var k := FirstFit(free, n);
    if k == |free| || (free[k].size < n + 4 && frag > 57) then 0 else free[k].End() - n
  }

  /** Block k is the first large enough: its end is taken, unless it would be used up but for three
      bytes or less while there are more than 57 fragment bytes. */
  lemma SlotMeans(free: seq<Block>, frag: nat, n: nat, k: nat)
    requires k <= |free| && (k < |free| ==> free[k].size >= n) && forall l :: 0 <= l < k ==> free[l].size < n
    ensures Slot(free, frag, n) ==
      if k < |free| && (frag <= 57 || free[k].size - n >= 4) then free[k].pos + (free[k].size - n) else 0
  {
    FirstFitIs(free, n, k);
  }

  /** The first freeblock of at least nByte bytes: its position and size and the address of the
      pointer to it; position 0 if there is none. */
  method FindFit(a: array<byte>, g: Shape, nByte: nat, ghost top: nat, ghost frag: nat, ghost used: seq<Block>,
                 ghost free: seq<Block>)
    returns (pc: nat, size: nat, iAddr: nat)
    requires Body(a[..], g, top, frag, used, free) && free != []
    ensures pc == PosOf(free, FirstFit(free, nByte)) && (pc == 0 <==> FirstFit(free, nByte) == |free|)
    ensures pc != 0 ==>
      size == free[FirstFit(free, nByte)].size && iAddr == LinkAddr(g.hdr + 1, free, FirstFit(free, nByte))
  {
    iAddr := g.hdr + 1;
    pc := Get2(a[..], iAddr);
    size := 0;
    ghost var k := 0;
    assert FreeAt(free, top, g.usable, 0);
    while pc + 4 <= g.usable
      invariant k < |free| && pc == free[k].pos && iAddr == LinkAddr(g.hdr + 1, free, k)
      invariant forall l :: 0 <= l < k ==> free[l].size < nByte
      invariant FreeAt(free, top, g.usable, k)
      decreases |free| - k
    {
      assert LinkAt(a[..], free, k) && FreeAt(free, top, g.usable, k);
      size := Get2(a[..], pc + 2);
      if size >= nByte {
        FirstFitIs(free, nByte, k);
        return;
      }
      assert k + 1 < |free| ==> FreeAt(free, top, g.usable, k + 1) && SortedAt(free, k, k + 1);
      iAddr := pc;
      pc := Get2(a[..], pc);
      k := k + 1;
      if pc < iAddr + size {
        FirstFitIs(free, nByte, k);
        return;
      }
    }
  }

  /** Use up freeblock k, whose pointer is at iAddr, but for x < 4 bytes. */
  method TakeAll(a: array<byte>, g: Shape, pc: nat, iAddr: nat, x: nat, nByte: nat,
                 ghost top: nat, ghost frag: nat, ghost used: seq<Block>, ghost free: seq<Block>, ghost k: nat)
    requires Body(a[..], g, top, frag, used, free) && 4 <= nByte && k < |free|
    requires pc == free[k].pos && iAddr == LinkAddr(g.hdr + 1, free, k)
    requires free[k].size == nByte + x && x < 4 && frag + x <= 60
    modifies a
    ensures Body(a[..], g, top, frag + x, used + [Block(pc + x, nByte)], Without(free, k))
    ensures SameElse(old(a[..]), a[..], g, top, used) && SameTop(old(a[..]), a[..], g)
  {
    ghost var d := a[..];
    assert LinkAt(d, free, k) && FreeAt(free, top, g.usable, k);
    assert k > 0 ==> FreeAt(free, top, g.usable, k - 1);
    Write2(a, iAddr, Get2(a[..], pc));
    var nFrag := a[g.hdr + 7] as int + x;
    assert nFrag == frag + x;
    Write1(a, g.hdr + 7, nFrag);
    BodyTakeWhole(d, g, top, frag, used, free, k, nByte, x, a[..]);
  }

  /** Leave freeblock k its first x >= 4 bytes. */
  method TakeEnd(a: array<byte>, g: Shape, pc: nat, x: nat, nByte: nat,
                 ghost top: nat, ghost frag: nat, ghost used: seq<Block>, ghost free: seq<Block>, ghost k: nat)
    requires Body(a[..], g, top, frag, used, free) && 4 <= nByte && k < |free|
    requires pc == free[k].pos && free[k].size == nByte + x && 4 <= x
    modifies a
    ensures Body(a[..], g, top, frag, used + [Block(pc + x, nByte)], free[k := Block(pc, x)])
    ensures SameElse(old(a[..]), a[..], g, top, used) && SameTop(old(a[..]), a[..], g)
  {
    ghost var d := a[..];
    assert LinkAt(d, free, k) && FreeAt(free, top, g.usable, k);
    Write2(a, pc + 2, x);
    BodyTakeTail(d, g, top, frag, used, free, k, nByte, x, a[..]);
  }

  /** nByte bytes from freeblock k, if that may be used. */
  method TakeFit(a: array<byte>, g: Shape, nByte: nat, pc: nat, size: nat, iAddr: nat,
                 ghost top: nat, ghost frag: nat, ghost used: seq<Block>, ghost free: seq<Block>, ghost k: nat)
    returns (slot: nat, ghost frag': nat, ghost free': seq<Block>)
    requires Body(a[..], g, top, frag, used, free) && 4 <= nByte && k < |free| && free[k] == Block(pc, size)
    requires nByte <= size && iAddr == LinkAddr(g.hdr + 1, free, k) && 0 < pc
    modifies a
    ensures slot == if size < nByte + 4 && frag > 57 then 0 else pc + size - nByte
    ensures slot == 0 ==> a[..] == old(a[..]) && frag' == frag && free' == free
    ensures slot != 0 ==> Body(a[..], g, top, frag', used + [Block(slot, nByte)], free')
    ensures slot != 0 ==> SameElse(old(a[..]), a[..], g, top, used) && SameTop(old(a[..]), a[..], g)
  {
    frag', free' := frag, free;
    var x := size - nByte;
    slot := pc + x;
    if x < 4 {
      if a[g.hdr + 7] > 57 {
        return 0, frag, free;
      }
      TakeAll(a, g, pc, iAddr, x, nByte, top, frag, used, free, k);
      frag', free' := frag + x, Without(free, k);
    } else {
      TakeEnd(a, g, pc, x, nByte, top, frag, used, free, k);
      free' := free[k := Block(pc, x)];
    }
  }

  /** pageFindSlot. */
  method FindSlot(a: array<byte>, g: Shape, nByte: nat,
                  ghost top: nat, ghost frag: nat, ghost used: seq<Block>, ghost free: seq<Block>)
    returns (slot: nat, ghost frag': nat, ghost free': seq<Block>)
    requires Body(a[..], g, top, frag, used, free) && 4 <= nByte && free != []
    modifies a
    ensures slot == Slot(free, frag, nByte)
    ensures slot == 0 ==> a[..] == old(a[..]) && frag' == frag && free' == free
    ensures slot != 0 ==> Body(a[..], g, top, frag', used + [Block(slot, nByte)], free')
    ensures slot != 0 ==> SameElse(old(a[..]), a[..], g, top, used) && SameTop(old(a[..]), a[..], g)
  {
    var pc, size, iAddr := FindFit(a, g, nByte, top, frag, used, free);
    if pc == 0 {
      return 0, frag, free;
    }
    slot, frag', free' := TakeFit(a, g, nByte, pc, size, iAddr, top, frag, used, free, FirstFit(free, nByte));
  }

  // ----- freeSpace

  /** The first freeblock after iStart, and the address of the pointer to it. */
  method FindPlace(a: array<byte>, g: Shape, iStart: nat,
                   ghost top: nat, ghost frag: nat, ghost used: seq<Block>, ghost free: seq<Block>, ghost m: nat)
    returns (iPtr: nat, iFreeBlk: nat, ghost k: nat)
    requires Body(a[..], g, top, frag, used, free) && m < |used| && iStart == used[m].pos
    ensures Splits(free, used[m], k) && iPtr == LinkAddr(g.hdr + 1, free, k) && iFreeBlk == PosOf(free, k)
    ensures iPtr == g.hdr + 1 <==> k == 0
  {
    assert free != [] ==> FreeAt(free, top, g.usable, 0);
    iPtr, iFreeBlk, k := g.hdr + 1, 0, 0;
    if a[iPtr + 1] == 0 && a[iPtr] == 0 {
      return;
    }
    iFreeBlk := Get2(a[..], iPtr);
    while iFreeBlk < iStart && iFreeBlk != 0
      invariant k <= |free| && iPtr == LinkAddr(g.hdr + 1, free, k) && iFreeBlk == PosOf(free, k)
      invariant forall l :: 0 <= l < k ==> FreeAt(free, top, g.usable, l) && free[l].pos < iStart
      decreases |free| - k
    {
      assert LinkAt(a[..], free, k) && FreeAt(free, top, g.usable, k);
      iPtr := iFreeBlk;
      iFreeBlk := Get2(a[..], iPtr);
      k := k + 1;
    }
    forall l | k <= l < |free| ensures iStart < free[l].pos {
      assert FreeAt(free, top, g.usable, k) && FreeAt(free, top, g.usable, l) && CrossAt(used, free, m, k);
      assert UsedAt(used, top, g.usable, m);
      assert l > k ==> SortedAt(free, k, l);
    }
  }

  /** The freed block with the freeblocks that touch it, but for fragments of at most three
      bytes; nFrag is what becomes of those fragments. */
  method Coalesce(a: array<byte>, g: Shape, iStart0: nat, iSize0: nat, iPtr: nat, iFreeBlk0: nat, ghost top: nat,
                  ghost frag: nat, ghost used: seq<Block>, ghost free: seq<Block>, ghost m: nat, ghost k: nat)
    returns (iStart: nat, iSize: nat, iFreeBlk: nat, nFrag: nat)
    requires Body(a[..], g, top, frag, used, free) && m < |used| && used[m] == Block(iStart0, iSize0)
    requires Splits(free, used[m], k) && iPtr == LinkAddr(g.hdr + 1, free, k) && iFreeBlk0 == PosOf(free, k)
    requires JoinsLeft(free, used[m], k) ==> free[k - 1].End() <= used[m].pos
    requires JoinsRight(free, used[m], k) ==> used[m].End() <= free[k].pos
    ensures Block(iStart, iSize) == Merged(free, used[m], k) && nFrag == Swallowed(free, used[m], k)
    ensures iFreeBlk == PosOf(free, RightKept(free, used[m], k))
  {
    iStart, iSize, iFreeBlk, nFrag := iStart0, iSize0, iFreeBlk0, 0;
    var iEnd := iStart + iSize;
    assert k < |free| ==> FreeAt(free, top, g.usable, k) && LinkAt(a[..], free, k);
    assert k > 0 ==> FreeAt(free, top, g.usable, k - 1) && LinkAt(a[..], free, k - 1);
    if iFreeBlk != 0 && iEnd + 3 >= iFreeBlk {
      nFrag := iFreeBlk - iEnd;
      iEnd := iFreeBlk + Get2(a[..], iFreeBlk + 2);
      iSize := iEnd - iStart;
      iFreeBlk := Get2(a[..], iFreeBlk);
    }
    if iPtr > g.hdr + 1 {
      var iPtrEnd := iPtr + Get2(a[..], iPtr + 2);
      if iPtrEnd + 3 >= iStart {
        nFrag := nFrag + (iStart - iPtrEnd);
        iSize := iEnd - iPtr;
        iStart := iPtr;
      }
    }
  }

  /** What makes the writes of freeSpace well defined: the corruption tests do not fire. */
  ghost predicate Placeable(g: Shape, top: nat, frag: nat, used: seq<Block>, free: seq<Block>, m: nat, k: nat) {
    && m < |used| && k <= |free|
    && (JoinsLeft(free, used[m], k) ==> free[k - 1].End() <= used[m].pos)
    && (JoinsRight(free, used[m], k) ==> used[m].End() <= free[k].pos)
    && 0 <= Swallowed(free, used[m], k) <= frag <= 60
    && top <= Merged(free, used[m], k).pos && Merged(free, used[m], k).End() <= g.usable
    && 4 <= Merged(free, used[m], k).size && top < 65536
    && (top == Merged(free, used[m], k).pos ==> k == 0)
    && LinkAddr(g.hdr + 1, free, k) + 1 < g.usable
  }

  lemma MergePlace(d: seq<byte>, g: Shape, top: nat, frag: nat, used: seq<Block>, free: seq<Block>, m: nat, k: nat)
    requires Body(d, g, top, frag, used, free) && m < |used| && Splits(free, used[m], k)
    ensures Placeable(g, top, frag, used, free, m, k)
  {
    GiveSpace(g.usable, top, frag, used, free, m, k);
    assert UsedAt(used, top, g.usable, m);
    assert k < |free| ==> FreeAt(free, top, g.usable, k);
    assert k > 0 ==> FreeAt(free, top, g.usable, k - 1);
  }

  /** The freed block becomes part of the gap. */
  method JoinGap(a: array<byte>, g: Shape, iStart: nat, iSize: nat, iFreeBlk: nat, nFrag: nat, ghost top: nat,
                 ghost frag: nat, ghost used: seq<Block>, ghost free: seq<Block>, ghost m: nat, ghost k: nat)
    returns (ghost frag': nat, ghost free': seq<Block>)
    requires Body(a[..], g, top, frag, used, free) && m < |used| && Splits(free, used[m], k)
    requires Placeable(g, top, frag, used, free, m, k) && iStart <= top && nFrag == Swallowed(free, used[m], k)
    requires Block(iStart, iSize) == Merged(free, used[m], k) && iFreeBlk == PosOf(free, RightKept(free, used[m], k))
    modifies a
    ensures Body(a[..], g, iStart + iSize, frag', Without(used, m), free') && top <= iStart + iSize
    ensures NotZero(Get2(a[..], g.hdr + 5)) == iStart + iSize
    ensures SameElse(old(a[..]), a[..], g, top, Without(used, m))
  {
    ghost var d := a[..];
    WriteShrink(a, g.hdr, a[g.hdr + 7] as int - nFrag, iStart, iSize, iFreeBlk);
    ImageShrink(d, g, top, frag, used, free, m, k, a[..]);
    frag', free' := frag - nFrag, free[RightKept(free, used[m], k)..];
  }

  /** The freed block joins the list. */
  method JoinList(a: array<byte>, g: Shape, iPtr: nat, iStart: nat, iSize: nat, iFreeBlk: nat, nFrag: nat,
                  ghost top: nat, ghost frag: nat, ghost used: seq<Block>, ghost free: seq<Block>, ghost m: nat,
                  ghost k: nat)
    returns (ghost frag': nat, ghost free': seq<Block>)
    requires Body(a[..], g, top, frag, used, free) && m < |used| && Splits(free, used[m], k)
    requires Placeable(g, top, frag, used, free, m, k) && top < iStart
    requires iPtr == LinkAddr(g.hdr + 1, free, k) && nFrag == Swallowed(free, used[m], k)
    requires Block(iStart, iSize) == Merged(free, used[m], k) && iFreeBlk == PosOf(free, RightKept(free, used[m], k))
    modifies a
    ensures Body(a[..], g, top, frag', Without(used, m), free')
    ensures SameElse(old(a[..]), a[..], g, top, Without(used, m)) && SameTop(old(a[..]), a[..], g)
  {
    ghost var d := a[..];
    WriteJoin(a, g.hdr, a[g.hdr + 7] as int - nFrag, iPtr, iStart, iSize, iFreeBlk);
    frag', free' := JoinedPage(d, g, top, frag, used, free, m, k, iPtr, Block(iStart, iSize), iFreeBlk, nFrag, a[..]);
  }

  lemma JoinedPage(d: seq<byte>, g: Shape, top: nat, frag: nat, used: seq<Block>, free: seq<Block>, m: nat, k: nat,
                   iPtr: nat, x: Block, next: nat, nFrag: nat, d': seq<byte>)
    returns (frag': nat, free': seq<Block>)
    requires Body(d, g, top, frag, used, free) && m < |used| && Splits(free, used[m], k)
    requires Placeable(g, top, frag, used, free, m, k) && top < x.pos
    requires iPtr == LinkAddr(g.hdr + 1, free, k) && nFrag == Swallowed(free, used[m], k)
    requires x == Merged(free, used[m], k) && next == PosOf(free, RightKept(free, used[m], k))
    requires d' == JoinBytes(d, g.hdr, frag - nFrag, iPtr, x, next)
    ensures Body(d', g, top, frag', Without(used, m), free')
    ensures SameElse(d, d', g, top, Without(used, m)) && SameTop(d, d', g)
  {
    frag', free' := frag - nFrag, FreeAfter(free, used[m], k);
    ImageJoin(d, g, top, frag, used, free, m, k, d');
  }

  /** freeSpace: block m becomes free. */
  method FreeBlock(a: array<byte>, g: Shape, iStart0: nat, iSize0: nat,
                   ghost top: nat, ghost frag: nat, ghost used: seq<Block>, ghost free: seq<Block>, ghost m: nat)
    returns (ghost top': nat, ghost frag': nat, ghost free': seq<Block>)
    requires Body(a[..], g, top, frag, used, free) && NotZero(Get2(a[..], g.hdr + 5)) == top
    requires m < |used| && used[m] == Block(iStart0, iSize0)
    modifies a
    ensures Body(a[..], g, top', frag', Without(used, m), free') && NotZero(Get2(a[..], g.hdr + 5)) == top' >= top
    ensures SameElse(old(a[..]), a[..], g, top, Without(used, m))
  {
    var iPtr, iFreeBlk0;
    ghost var k;
    iPtr, iFreeBlk0, k := FindPlace(a, g, iStart0, top, frag, used, free, m);
    MergePlace(a[..], g, top, frag, used, free, m, k);
    var iStart, iSize, iFreeBlk, nFrag := Coalesce(a, g, iStart0, iSize0, iPtr, iFreeBlk0, top, frag, used, free, m, k);
    var x := Get2(a[..], g.hdr + 5);
    top' := top;
    if iStart <= x {
      frag', free' := JoinGap(a, g, iStart, iSize, iFreeBlk, nFrag, top, frag, used, free, m, k);
      top' := iStart + iSize;
    } else {
      frag', free' := JoinList(a, g, iPtr, iStart, iSize, iFreeBlk, nFrag, top, frag, used, free, m, k);
    }
  }
}
