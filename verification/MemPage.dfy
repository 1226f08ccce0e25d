/** A b-tree page in memory: its bytes, and the operations that take, give back and regroup the
    space of its cells. */
module MemPageModel {
  import opened Bytes
  import opened Blocks
  import opened PageLayout
  import opened PageBytes
  import opened PageImage
  import opened PageDefrag
  import opened PageSpace
  import CellFormat

  method UnshiftPointers(a: array<byte>, at: nat, n: nat)
    requires at + n + 2 <= a.Length
    modifies a
    ensures a[..] == Copied(old(a[..]), at, old(a[..]), at + 2, n)
  {
    CopyTo(a, at, a, at + 2, n);
  }

  /** dropCell's writes to the cell-pointer array and the cell count. */
  method WriteDrop(a: array<byte>, g: Shape, n: nat, m: nat)
    requires m < n && g.hdr + 8 <= g.off && g.off + 2 * n <= a.Length
    modifies a
    ensures a[..] == DropBytes(old(a[..]), g, n, m)
  {
    UnshiftPointers(a, g.off + 2 * m, 2 * (n - 1 - m));
    Write2(a, g.hdr + 3, n - 1);
  }

  method ShiftPointers(a: array<byte>, g: Shape, n: nat, i: nat)
    requires i <= n && g.off + 2 * n + 2 <= a.Length
    modifies a
    ensures a[..] == ShiftBytes(old(a[..]), g, n, i)
  {
    CopyTo(a, g.off + 2 * i + 2, a, g.off + 2 * i, 2 * (n - i));
  }

  /** Open the cell-pointer array at i for a pointer to idx. */
  method OpenPointers(a: array<byte>, g: Shape, n: nat, i: nat, idx: nat)
    requires i <= n && g.off + 2 * n + 2 <= a.Length
    modifies a
    ensures a[..] == Put2(ShiftBytes(old(a[..]), g, n, i), g.off + 2 * i, idx)
  {
    ShiftPointers(a, g, n, i);
    Write2(a, g.off + 2 * i, idx);
  }

  /** A cell that did not fit on the page, and its index among all the cells. */
  datatype Overflow = Overflow(idx: nat, cell: seq<byte>)

  /** A sequence of cells with one more at position i. */
  function With(cs: seq<seq<byte>>, i: nat, cell: seq<byte>): (r: seq<seq<byte>>)
    requires i <= |cs|
    ensures |r| == |cs| + 1
  {
    cs[..i] + [cell] + cs[i..]
  }

  lemma WithMeans(cs: seq<seq<byte>>, i: nat, cell: seq<byte>)
    requires i <= |cs|
    ensures With(cs, i, cell)[i] == cell
    ensures With(cs, i, cell)[..i] == cs[..i] && With(cs, i, cell)[i + 1..] == cs[i..]
  {
  }

  /** The cells of the page and its overflow cells, in order. */
  ghost function Merge(cs: seq<seq<byte>>, ov: seq<Overflow>): (r: seq<seq<byte>>)
    requires Placed(|cs|, ov)
    ensures |r| == |cs| + |ov|
    decreases |ov|
  {
    if ov == [] then cs else
      var n := |ov| - 1;
      assert ov[..n] == ov[..n];
      With(Merge(cs, ov[..n]), ov[n].idx, ov[n].cell)
  }

  ghost predicate Placed(n: nat, ov: seq<Overflow>) {
    forall j :: 0 <= j < |ov| ==> ov[j].idx <= n + j
  }

  /** The cell with its child pointer replaced, if iChild is given. */
  function WithChild(cell: seq<byte>, iChild: u32): (r: seq<byte>)
    requires 4 <= |cell|
    ensures |r| == |cell|
  {
    if iChild != 0 then Put4(cell, 0, iChild) else cell
  }

  /** The page number is the one stored, and the rest of the cell is as it was. */
  lemma ChildStored(cell: seq<byte>, iChild: u32)
    requires 4 <= |cell| && iChild > 0
    ensures Get4(WithChild(cell, iChild), 0) == iChild && WithChild(cell, iChild)[4..] == cell[4..]
  {
    GetPut4(cell, 0, iChild);
  }

  /** Add one to a two-byte count, byte by byte. */
  method CountUp(a: array<byte>, at: nat)
    requires at + 1 < a.Length && Get2(a[..], at) < 65535
    modifies a
    ensures a[..] == Put2(old(a[..]), at, Get2(old(a[..]), at) + 1)
  {
    var lo := (a[at + 1] as int + 1) % 256;
    a[at + 1] := lo;
    if lo == 0 {
      a[at] := a[at] + 1;
    }
  }

  /** The cell's bytes, with the child pointer if there is one, at idx. */
  method WriteCell(a: array<byte>, idx: nat, cell: seq<byte>, iChild: u32)
    requires 4 <= |cell| && idx + |cell| <= a.Length
    modifies a
    ensures a[..] == Copied(old(a[..]), idx, WithChild(cell, iChild), 0, |cell|)
  {
    forall j | idx <= j < idx + |cell| {
      a[j] := cell[j - idx];
    }
    if iChild != 0 {
      Write4(a, idx, iChild);
    }
  }

  /** insertCell's writes. */
  method WriteInsert(a: array<byte>, g: Shape, n: nat, i: nat, idx: nat, cell: seq<byte>, iChild: u32)
    requires 4 <= |cell| && i <= n < 65535 && g.hdr + 8 <= g.off && g.off + 2 * n + 2 <= idx && idx + |cell| <= a.Length
    requires Get2(a[..], g.hdr + 3) == n
    modifies a
    ensures a[..] == InsertBytes(old(a[..]), g, n, i, idx, WithChild(cell, iChild))
  {
    WriteCell(a, idx, cell, iChild);
    OpenPointers(a, g, n, i, idx);
    CountUp(a, g.hdr + 3);
  }

  class MemPage {
    const g: Shape
    const aData: array<byte>
    var nCell: nat
    var nFree: int
    var ovfl: seq<Overflow>
    ghost var top: nat
    ghost var frag: nat
    ghost var cells: seq<Block>
    ghost var free: seq<Block>

    /** zeroPage: an empty page of some kind, whatever the buffer held. */
    constructor (usable: nat, hdr: nat, kind: CellFormat.Kind, flags: byte)
      requires CellFormat.PageSizeOk(usable) && (hdr == 0 || hdr == 100)
      ensures Valid() && Contents() == [] && ovfl == [] && fresh(aData)
      ensures g == Shape(usable, hdr, hdr + 8 + CellFormat.ChildSize(kind), CellFormat.CellSize(usable, kind))
    {
      g := Shape(usable, hdr, hdr + 8 + CellFormat.ChildSize(kind), CellFormat.CellSize(usable, kind));
      aData := new byte[usable];
      ovfl := [];
      new;
      CellFormat.SizeIsLocal(usable, kind);
      Write1(aData, hdr, flags);
      Empty();
    }

    /** Some blocks may be allocated without being listed as cells yet. */
    ghost predicate Holds(extra: seq<Block>)
      reads this, aData
    {
      && aData.Length == g.usable && nCell == |cells|
      && Good(aData[..], g, top, frag, cells, extra, free)
    }

    ghost predicate Valid()
      reads this, aData
    {
      Holds([]) && nFree == g.usable - g.off - 2 * nCell - Sum(cells)
    }

    /** The cells on the page, as byte strings in key order. */
    ghost function Contents(): (cs: seq<seq<byte>>)
      requires Holds([])
      reads this, aData
      ensures |cs| == nCell
    {
      CellsInside(aData[..], g, top, frag, cells, [], free);
      CellBytes(aData[..], cells)
    }

    /** ... and with the cells that did not fit. */
    ghost function AllCells(): (cs: seq<seq<byte>>)
      requires Holds([]) && Placed(nCell, ovfl)
      reads this, aData
    {
      Merge(Contents(), ovfl)
    }

    /** pageFindSlot: take nByte bytes from the end of the first freeblock that has them; 0 if
        there is none, or if the block would be used up while there are more than 57 fragment
        bytes, and then no later block is tried. */
    method PageFindSlot(nByte: nat) returns (slot: nat)
      requires Holds([]) && 4 <= nByte && free != [] && g.off + 2 * nCell + 2 <= top
      modifies this`frag, this`free, aData
      ensures slot == 0 ==> Holds([]) && aData[..] == old(aData[..]) && free == old(free) && frag == old(frag)
      ensures slot == Slot(old(free), old(frag), nByte)
      ensures slot != 0 ==> Holds([Block(slot, nByte)])
      ensures slot != 0 ==> forall i :: 0 <= i < |cells| ==> Kept(old(aData[..]), aData[..], g, cells, i)
    {
      ghost var d, frag0, free0 := aData[..], frag, free;
      BodyOf(d, g, top, frag, cells, [], free);
      slot, frag, free := FindSlot(aData, g, nByte, top, frag, cells, free);
      if slot == 0 {
        assert aData[..] == d;
      } else {
        TakenFrom(d, aData[..], g, top, frag0, cells, free0, top, frag, Block(slot, nByte), free);
      }
    }

    // ----- defragmentPage

    /** The end of both ways: cells at `cbrk` and up, all free space in the gap. */
    method Seal(cbrk: nat, ghost cells': seq<Block>, ghost frag': nat)
      requires nCell == |cells'| && Sealable(aData[..], g, cells', cbrk, frag')
      modifies this`top, this`frag, this`cells, this`free, aData
      ensures Holds([]) && free == [] && cells == cells' && top == cbrk && frag == frag'
      ensures forall i :: 0 <= i < |cells'| ==> SameBytes(old(aData[..]), aData[..], cells'[i])
    {
      ghost var d := aData[..];
      Write2(aData, g.hdr + 5, cbrk);
      Write1(aData, g.hdr + 1, 0);
      Write1(aData, g.hdr + 2, 0);
      Clear(g.off + 2 * nCell, cbrk);
      SealFacts(d, g, nCell, cbrk);
      Sealed(d, aData[..], g, frag', cells', cbrk);
      top, frag, cells, free := cbrk, frag', cells', [];
    }

    /** memset of [lo, hi) to zero. */
    method Clear(lo: nat, hi: nat)
      requires lo <= hi <= aData.Length
      modifies aData
      ensures aData[..] == Zeroed(old(aData[..]), lo, hi - lo)
    {
      forall j | lo <= j < hi {
        aData[j] := 0;
      }
    }

    /** The memmoves. */
    method MoveUp1(content: nat, iFree: nat, sz: nat)
      requires content <= iFree && iFree + sz <= aData.Length
      modifies aData
      ensures aData[..] == SlideOver1(old(aData[..]), content, iFree, sz)
    {
      CopyTo(aData, content + sz, aData, content, iFree - content);
    }

    method MoveUp2(content: nat, iFree: nat, sz: nat, iFree2: nat, sz2: nat)
      requires content <= iFree && iFree + sz <= iFree2 && iFree2 + sz2 <= aData.Length
      modifies aData
      ensures aData[..] == SlideOver2(old(aData[..]), content, iFree, sz, iFree2, sz2)
    {
      ghost var d0 := aData[..];
      var n := iFree2 - (iFree + sz);
      CopyTo(aData, iFree + sz + sz2, aData, iFree + sz, n);
      ghost var d1 := aData[..];
      SlideTwice(d0, d1, content, iFree, sz, iFree2, sz2);
      MoveUp1(content, iFree, sz + sz2);
    }

    /** One or two freeblocks: slide the blocks of cells up over them. */
    method Slide(iFree: nat, iFree2: nat) returns (sz: nat, sz2: nat)
      requires Holds([]) && 1 <= |free| <= 2
      requires iFree == free[0].pos && iFree2 == if |free| == 2 then free[1].pos else 0
      modifies aData
      ensures sz2 == Second(free) && sz == Total(free)
      ensures Slid(old(aData[..]), aData[..], top, free)
    {
      ghost var d0 := aData[..];
      assert LinkAt(d0, free, 0) && FreeAt(free, top, g.usable, 0);
      assert |free| == 2 ==> LinkAt(d0, free, 1) && FreeAt(free, top, g.usable, 1) && SortedAt(free, 0, 1);
      sz := Get2(aData[..], iFree + 2);
      var content := Get2(aData[..], g.hdr + 5);
      sz2 := 0;
      if iFree2 != 0 {
        sz2 := Get2(aData[..], iFree2 + 2);
        MoveUp2(content, iFree, sz, iFree2, sz2);
      } else {
        MoveUp1(content, iFree, sz);
      }
      SlideAll(d0, aData[..], top, free);
      sz := sz + sz2;
    }

    /** Add to cell pointer i what its cell was moved by. */
    method AdjustOne(i: nat, iFree: nat, iFree2: nat, sz: nat, sz2: nat, ghost d0: seq<byte>, ghost d1: seq<byte>)
      requires aData.Length == g.usable <= 65536 && i < |cells| && 1 <= |free| <= 2
      requires iFree == free[0].pos && iFree2 == (if |free| == 2 then free[1].pos else 0)
      requires sz == Total(free) && sz2 == Second(free)
      requires cells[i].pos + Shift(free, cells[i].pos) < 65536
      requires Adjusting(d0, d1, aData[..], g, cells, free, i)
      modifies aData
      ensures Adjusting(d0, d1, aData[..], g, cells, free, i + 1)
    {
      ghost var d := aData[..];
      assert AdjustedAt(d, g, cells, free, i, i);
      var pc := Get2(aData[..], g.off + 2 * i);
      assert pc == cells[i].pos;
      if pc < iFree {
        Write2(aData, g.off + 2 * i, pc + sz);
      } else if pc < iFree2 {
        Write2(aData, g.off + 2 * i, pc + sz2);
      }
      AdjustStep(d0, d1, d, aData[..], g, cells, free, i);
    }

    method AdjustPointers(iFree: nat, iFree2: nat, sz: nat, sz2: nat, ghost d0: seq<byte>)
      requires aData.Length == g.usable <= 65536 && nCell == |cells| && 1 <= |free| <= 2
      requires Regions(g.usable, top, cells, free)
      requires iFree == free[0].pos && iFree2 == (if |free| == 2 then free[1].pos else 0)
      requires sz == Total(free) && sz2 == Second(free)
      requires Adjusting(d0, aData[..], aData[..], g, cells, free, 0)
      modifies aData
      ensures Adjusting(d0, old(aData[..]), aData[..], g, cells, free, |cells|)
    {
      ghost var d1 := aData[..];
      for i := 0 to nCell
        invariant Adjusting(d0, d1, aData[..], g, cells, free, i)
      {
        ShiftFits(g.usable, top, cells, free, i);
        AdjustOne(i, iFree, iFree2, sz, sz2, d0, d1);
      }
    }

    /** The fast way, for a page with one or two freeblocks: fragments stay. */
    method SlideUp(iFree: nat, iFree2: nat) returns (cbrk: nat)
      requires Holds([]) && 1 <= |free| <= 2
      requires iFree == free[0].pos && iFree2 == if |free| == 2 then free[1].pos else 0
      modifies aData
      ensures Sealable(aData[..], g, Shifted(cells, free), cbrk, frag) && Sum(Shifted(cells, free)) == Sum(cells)
      ensures forall i :: 0 <= i < |cells| ==> CarriedAt(old(aData[..]), aData[..], cells, Shifted(cells, free), i)
    {
      ghost var d0 := aData[..];
      assert cells + [] == cells;
      assert FreeAt(free, top, g.usable, 0);
      var content := Get2(aData[..], g.hdr + 5);
      assert content == top < iFree;
      var sz, sz2 := Slide(iFree, iFree2);
      ghost var d1 := aData[..];
      SlideStarts(d0, d1, g, top, frag, cells, free);
      AdjustPointers(iFree, iFree2, sz, sz2, d0);
      cbrk := content + sz;
      SlidePrepares(d0, d1, aData[..], g, top, frag, cells, free, Shifted(cells, free), cbrk);
    }

    /** Copy cell i from the saved bytes to cbrk; its pointer is written already. */
    method MoveOne(tmp: array<byte>, i: nat, cbrk: nat, pc: nat, size: nat, ghost lim: nat, ghost d0: seq<byte>,
                   ghost d: seq<byte>)
      requires tmp.Length == aData.Length && tmp != aData && i < |cells| && Good(d0, g, top, frag, cells, [], free)
      requires Rebuilding(d0, d, tmp[..], g, top, cells, i, cbrk + size, true, lim)
      requires pc == cells[i].pos && size == cells[i].size && pc + size <= tmp.Length && g.off + 2 * |cells| <= cbrk
      requires g.off + 2 * i + 1 < |d| && aData[..] == Put2(d, g.off + 2 * i, cbrk)
      modifies aData
      ensures Rebuilding(d0, aData[..], tmp[..], g, top, cells, i + 1, cbrk, true, lim)
    {
      CopyTo(aData, cbrk, tmp, pc, size);
      RebuildMove(d0, d, aData[..], tmp[..], g, top, frag, cells, free, i, cbrk + size, lim);
    }

    /** The first cell that moves: save the content area below cbrk0. */
    method SaveRest(tmp: array<byte>, i: nat, cbrk: nat, cbrk0: nat, x: nat, ghost d0: seq<byte>, ghost d: seq<byte>)
      requires tmp.Length == aData.Length && tmp != aData && i < |cells| && x == top <= cbrk0
      requires Rebuilding(d0, d, tmp[..], g, top, cells, i, cbrk0, false, cbrk0)
      requires g.off + 2 * |cells| <= top && aData[..] == Put2(d, g.off + 2 * i, cbrk)
      modifies tmp
      ensures Rebuilding(d0, d, tmp[..], g, top, cells, i, cbrk0, true, cbrk0)
    {
      ghost var t := tmp[..];
      CopyTo(tmp, x, aData, x, cbrk0 - x);
      RebuildSave(d0, d, aData[..], t, tmp[..], g, top, cells, i, cbrk0, cbrk);
    }

    /** One round of the rebuild loop. */
    method RebuildOne(tmp: array<byte>, i: nat, cbrk0: nat, moved0: bool, ghost lim0: nat, ghost d0: seq<byte>)
      returns (cbrk: nat, moved: bool, ghost lim: nat)
      requires tmp.Length == aData.Length && tmp != aData && i < |cells| && Good(d0, g, top, frag, cells, [], free)
      requires Rebuilding(d0, aData[..], tmp[..], g, top, cells, i, cbrk0, moved0, lim0)
      modifies aData, tmp
      ensures Rebuilding(d0, aData[..], tmp[..], g, top, cells, i + 1, cbrk, moved, lim)
    {
      ghost var d, t := aData[..], tmp[..];
      RebuildReads(d0, d, t, if moved0 then t else d, g, top, frag, cells, free, i, cbrk0, moved0, lim0);
      var pc := Get2(aData[..], g.off + 2 * i);
      var size := g.f(if moved0 then tmp[pc..] else aData[pc..]);
      cbrk := cbrk0 - size;
      var x := Get2(aData[..], g.hdr + 5);
      Write2(aData, g.off + 2 * i, cbrk);
      moved, lim := moved0, lim0;
      if !moved0 {
        if cbrk == pc {
          RebuildKeep(d0, d, aData[..], t, g, top, frag, cells, free, i, cbrk0);
          return cbrk, false, cbrk;
        }
        SaveRest(tmp, i, cbrk, cbrk0, x, d0, d);
        moved := true;
      }
      MoveOne(tmp, i, cbrk, pc, size, lim, d0, d);
    }

    /** The general way: copy the cells to the end of the page one after the other. */
    method Rebuild() returns (cbrk: nat)
      requires Holds([])
      modifies aData
      ensures Sum(cells) <= g.usable
      ensures Sealable(aData[..], g, Packed(cells, g.usable), cbrk, 0) && Sum(Packed(cells, g.usable)) == Sum(cells)
      ensures forall i :: 0 <= i < |cells| ==> CarriedAt(old(aData[..]), aData[..], cells, Packed(cells, g.usable), i)
    {
      ghost var d0 := aData[..];
      assert cells + [] == cells;
      var tmp := new byte[g.usable];
      var moved := false;
      cbrk := g.usable;
      ghost var lim := g.usable;
      RebuildStarts(d0, tmp[..], g, top, frag, cells, free);
      for i := 0 to nCell
        invariant Rebuilding(d0, aData[..], tmp[..], g, top, cells, i, cbrk, moved, lim)
      {
        cbrk, moved, lim := RebuildOne(tmp, i, cbrk, moved, lim, d0);
      }
      ghost var d := aData[..];
      Write1(aData, g.hdr + 7, 0);
      RebuildPrepares(d0, d, tmp[..], g, top, frag, cells, free, cbrk, moved, lim, aData[..], Packed(cells, g.usable));
    }

    /** Whether the page may be defragmented the fast way, and its one or two freeblocks. */
    method FewFreeblocks(nMaxFrag: int) returns (few: bool, iFree: nat, iFree2: nat)
      requires Holds([])
      ensures few <==> frag <= nMaxFrag && 1 <= |free| <= 2
      ensures few ==> iFree == free[0].pos && iFree2 == if |free| == 2 then free[1].pos else 0
    {
      few, iFree, iFree2 := false, 0, 0;
      if aData[g.hdr + 7] as int <= nMaxFrag {
        iFree := Get2(aData[..], g.hdr + 1);
        assert free != [] ==> FreeAt(free, top, g.usable, 0) && LinkAt(aData[..], free, 0);
        if iFree != 0 {
          iFree2 := Get2(aData[..], iFree);
          assert |free| > 1 ==> FreeAt(free, top, g.usable, 1) && LinkAt(aData[..], free, 1);
          assert |free| > 2 ==> FreeAt(free, top, g.usable, 2);
          few := iFree2 == 0 || (aData[iFree2] == 0 && aData[iFree2 + 1] == 0);
        }
      }
    }

    /** defragmentPage: afterwards there are no freeblocks, and fragment bytes are left only by
        the fast way, nMaxFrag of them at most; every cell has the bytes it had.  A negative
        limit makes all free space one gap. */
    method Defragment(nMaxFrag: int)
      requires Valid()
      modifies this`top, this`frag, this`cells, this`free, aData
      ensures Valid() && free == []
      ensures frag == old(if frag <= nMaxFrag && 1 <= |free| <= 2 then frag else 0)
      ensures nMaxFrag <= 0 ==> nFree == top - (g.off + 2 * nCell)
      ensures |cells| == |old(cells)| && Sum(cells) == old(Sum(cells))
      ensures forall i :: 0 <= i < |cells| ==> CarriedAt(old(aData[..]), aData[..], old(cells), cells, i)
    {
      ghost var d0, cells0 := aData[..], cells;
      var few, iFree, iFree2 := FewFreeblocks(nMaxFrag);
      var cbrk;
      ghost var cells', frag';
      if few {
        cells', frag' := Shifted(cells, free), frag;
        cbrk := SlideUp(iFree, iFree2);
      } else {
        cbrk := Rebuild();
        cells', frag' := Packed(cells, g.usable), 0;
      }
      assert aData[g.hdr + 7] + cbrk - (g.off + 2 * nCell) == nFree;
      ghost var d2 := aData[..];
      Seal(cbrk, cells', frag');
      CarriedOn(d0, d2, aData[..], cells0, cells');
    }

    // ----- allocateSpace

    /** Where the content area starts: a stored 0 may stand for 65536. */
    method ContentStart() returns (start: nat)
      requires Holds([])
      ensures start == top
    {
      start := Get2(aData[..], g.hdr + 5);
      if g.off + 2 * nCell > start {
        start := 65536;
      }
    }

    /** nByte bytes from the gap. */
    method TakeFromGap(start: nat, nByte: nat) returns (idx: nat)
      requires Holds([]) && 4 <= nByte && start == top && g.off + 2 * nCell + 2 + nByte <= top
      modifies this`top, aData
      ensures Holds([Block(idx, nByte)]) && idx == top == old(top) - nByte
      ensures forall i :: 0 <= i < |cells| ==> Kept(old(aData[..]), aData[..], g, cells, i)
    {
      ghost var d := aData[..];
      idx := start - nByte;
      Write2(aData, g.hdr + 5, idx);
      GapTaken(d, g, top, frag, cells, free, nByte, aData[..]);
      top := idx;
    }

    /** Defragment if the gap is too small for a cell of nByte bytes and its pointer. */
    method MakeRoom(nByte: nat, start0: nat) returns (start: nat)
      requires Valid() && start0 == top && nByte + 2 <= nFree
      modifies this`top, this`frag, this`cells, this`free, aData
      ensures Valid() && start == top && g.off + 2 * nCell + 2 + nByte <= top
      ensures if g.off + 2 * nCell + 2 + nByte <= old(top)
              then cells == old(cells) && top == old(top) && free == old(free) && frag == old(frag) else free == []
      ensures |cells| == |old(cells)| && Sum(cells) == old(Sum(cells))
      ensures forall i :: 0 <= i < |cells| ==> CarriedAt(old(aData[..]), aData[..], old(cells), cells, i)
    {
      start := start0;
      if g.off + 2 * nCell + 2 + nByte > start {
        Defragment(if 4 < nFree - (2 + nByte) then 4 else nFree - (2 + nByte));
        start := NotZero(Get2(aData[..], g.hdr + 5));
        assert cells + [] == cells && Sum(free) == 0;
      } else {
        NothingMoved(aData[..], g, top, frag, cells, free);
      }
    }

    /** allocateSpace: whenever the page has nByte + 2 free bytes in all, nByte bytes in one
        piece are found. */
    method AllocateSpace(nByte: nat) returns (idx: nat)
      requires Valid() && 4 <= nByte && nByte + 2 <= nFree
      modifies this`top, this`frag, this`cells, this`free, aData
      ensures Holds([Block(idx, nByte)]) && |cells| == |old(cells)| && Sum(cells) == old(Sum(cells))
      ensures forall i :: 0 <= i < |cells| ==> CarriedAt(old(aData[..]), aData[..], old(cells), cells, i)
      ensures var gap := g.off + 2 * nCell;
        var slot := if old(free) != [] && gap + 2 <= old(top) then Slot(old(free), old(frag), nByte) else 0;
        if slot != 0 then idx == slot && cells == old(cells) && top == old(top)
        else if gap + 2 + nByte <= old(top) then idx == top == old(top) - nByte && cells == old(cells)
        else idx == top && free == []
    {
      ghost var d0, cells0 := aData[..], cells;
      var start := ContentStart();
      assert free != [] ==> FreeAt(free, top, g.usable, 0);
      if (aData[g.hdr + 2] != 0 || aData[g.hdr + 1] != 0) && g.off + 2 * nCell + 2 <= start {
        assert free != [];
        idx := PageFindSlot(nByte);
        if idx != 0 {
          KeptCarries(d0, aData[..], g, cells);
          return;
        }
      }
      start := MakeRoom(nByte, start);
      ghost var d1, cells1 := aData[..], cells;
      idx := TakeFromGap(start, nByte);
      KeptCarries(d1, aData[..], g, cells);
      CarriedTwice(d0, d1, aData[..], cells0, cells1, cells);
    }

    // ----- freeSpace

    /** freeSpace: cell m's block becomes free. */
    method FreeSpace(iStart: nat, iSize: nat, ghost m: nat)
      requires Valid() && m < |cells| && cells[m] == Block(iStart, iSize)
      modifies this`nFree, this`top, this`frag, this`free, aData
      ensures Freed(aData[..], g, top, frag, cells, m, free) && nFree == old(nFree) + iSize
      ensures forall i :: 0 <= i < |cells| && i != m ==> Kept(old(aData[..]), aData[..], g, cells, i)
    {
      ghost var d, top0, frag0, free0 := aData[..], top, frag, free;
      BodyOf(d, g, top, frag, cells, [], free);
      top, frag, free := FreeBlock(aData, g, iStart, iSize, top, frag, cells, free, m);
      GivenBack(d, aData[..], g, top0, frag0, cells, free0, m, top, frag, free);
      nFree := nFree + iSize;
    }

    // ----- dropCell

    /** The last cell is gone: the page is set back to an empty one. */
    method Empty()
      requires aData.Length == g.usable && g.Ok()
      modifies this`nCell, this`nFree, this`top, this`frag, this`cells, this`free, aData
      ensures Valid() && cells == [] && free == [] && frag == 0 && top == g.usable
    {
      Clear(g.hdr + 1, g.hdr + 5);
      Write1(aData, g.hdr + 7, 0);
      Write2(aData, g.hdr + 5, g.usable);
      nCell, nFree := 0, g.usable - g.off;
      top, frag, cells, free := g.usable, 0, [], [];
      ImageEmpty(aData[..], g);
    }

    /** Close the gap in the cell-pointer array. */
    method ClosePointers(idx: nat)
      requires aData.Length == g.usable && nCell == |cells| && idx < nCell
      requires Freed(aData[..], g, top, frag, cells, idx, free)
      requires nFree == g.usable - g.off - 2 * nCell - Sum(cells) + cells[idx].size
      modifies this`nCell, this`nFree, this`cells, aData
      ensures Valid() && cells == Without(old(cells), idx)
      ensures forall j :: 0 <= j < |cells| ==> SameBytes(old(aData[..]), aData[..], cells[j])
    {
      ghost var d := aData[..];
      WriteDrop(aData, g, nCell, idx);
      nCell := nCell - 1;
      nFree := nFree + 2;
      ImageDrop(d, g, top, frag, cells, idx, free, aData[..]);
      SumWithout(cells, idx);
      cells := Without(cells, idx);
    }

    /** dropCell: cell idx is gone, the other cells keep their bytes and their order. */
    method DropCell(idx: nat, sz: nat)
      requires Valid() && idx < nCell && sz == |Contents()[idx]|
      modifies this`nCell, this`nFree, this`top, this`frag, this`cells, this`free, aData
      ensures Valid() && Contents() == old(Contents()[..idx] + Contents()[idx + 1..])
      ensures old(nCell) == 1 ==> free == [] && frag == 0 && top == g.usable
    {
      ghost var d0, cells0 := aData[..], cells;
      assert CellAt(d0, g, cells, idx);
      CellsInside(d0, g, top, frag, cells, [], free);
      var pc := Get2(aData[..], g.off + 2 * idx);
      FreeSpace(pc, sz, idx);
      ghost var d1 := aData[..];
      if nCell == 1 {
        Empty();
      } else {
        ClosePointers(idx);
        DropContents(d0, d1, aData[..], g, cells0, idx);
      }
    }

    // ----- insertCell

    /** Write a cell into the block allocated for it. */
    method Place(i: nat, cell: seq<byte>, iChild: u32, idx: nat)
      requires 4 <= |cell| && Holds([Block(idx, |cell|)]) && i <= nCell
      requires g.f(WithChild(cell, iChild)) == |cell|
      modifies this`nCell, this`cells, aData
      ensures Holds([]) && cells == Inserted(old(cells), i, Block(idx, |cell|))
      ensures idx + |cell| <= aData.Length && aData[idx..idx + |cell|] == WithChild(cell, iChild)
      ensures forall j :: 0 <= j < |old(cells)| ==> SameBytes(old(aData[..]), aData[..], old(cells)[j])
    {
      ghost var d, b, full := aData[..], Block(idx, |cell|), WithChild(cell, iChild);
      AllocatedBounds(d, g, top, frag, cells, b, free);
      WriteInsert(aData, g, nCell, i, idx, cell, iChild);
      InsertDoes(d, g, nCell, i, b, full, top);
      ImageInsert(d, Copied(d, idx, full, 0, |full|), aData[..], g, top, frag, cells, b, free, i, full);
      nCell := nCell + 1;
      cells := Inserted(cells, i, b);
    }

    /** The cell goes into the block allocated for it; the page was d0, with the cells cells0. */
    method PutIn(i: nat, cell: seq<byte>, iChild: u32, idx: nat, ghost d0: seq<byte>, ghost cells0: seq<Block>)
      requires 4 <= |cell| && Holds([Block(idx, |cell|)]) && i <= nCell && g.f(WithChild(cell, iChild)) == |cell|
      requires nFree == g.usable - g.off - 2 * nCell - Sum(cells) && |cells0| == |cells|
      requires forall j :: 0 <= j < |cells0| ==> cells0[j].End() <= |d0| && CarriedAt(d0, aData[..], cells0, cells, j)
      modifies this`nCell, this`nFree, this`cells, aData
      ensures Valid() && Contents() == With(CellBytes(d0, cells0), i, WithChild(cell, iChild))
    {
      ghost var d1, cells1 := aData[..], cells;
      nFree := nFree - (2 + |cell|);
      Place(i, cell, iChild, idx);
      SumInserted(cells1, i, Block(idx, |cell|));
      InsertContents(d0, d1, aData[..], cells0, cells1, i, Block(idx, |cell|), WithChild(cell, iChild));
    }

    /** insertCell on a page with room for the cell and its pointer. */
    method InsertHere(i: nat, cell: seq<byte>, iChild: u32)
      requires Valid() && i <= nCell && 4 <= |cell| && g.f(WithChild(cell, iChild)) == |cell| && |cell| + 2 <= nFree
      modifies this`nCell, this`nFree, this`top, this`frag, this`cells, this`free, aData
      ensures Valid() && Contents() == With(old(Contents()), i, WithChild(cell, iChild))
    {
      ghost var d0, cells0 := aData[..], cells;
      CellsInside(d0, g, top, frag, cells, [], free);
      var idx := AllocateSpace(|cell|);
      PutIn(i, cell, iChild, idx, d0, cells0);
    }

    /** insertCell: among all the cells, on the page or set aside, the new one is number i.  It
        is set aside exactly if cells are set aside already or the page's free bytes, wherever
        they are, are too few for it and its pointer. */
    method InsertCell(i: nat, cell: seq<byte>, iChild: u32)
      requires Valid() && Placed(nCell, ovfl) && i <= nCell + |ovfl|
      requires 4 <= |cell| && g.f(WithChild(cell, iChild)) == |cell|
      modifies this, aData
      ensures Valid() && Placed(nCell, ovfl)
      ensures AllCells() == With(old(AllCells()), i, WithChild(cell, iChild))
      ensures AllCells()[..i] == old(AllCells())[..i] && AllCells()[i + 1..] == old(AllCells())[i..]
      ensures |AllCells()[i]| == |cell| && (iChild == 0 ==> AllCells()[i] == cell)
      ensures iChild > 0 ==> Get4(AllCells()[i], 0) == iChild && AllCells()[i][4..] == cell[4..]
      ensures var fits := old(ovfl == [] && g.off + 2 * nCell + 2 + TotalLength(Contents()) + |cell| <= g.usable);
        if fits then ovfl == []
        else ovfl == old(ovfl) + [Overflow(i, WithChild(cell, iChild))]
             && Contents() == old(Contents()) && aData[..] == old(aData[..])
    {
      CellsInside(aData[..], g, top, frag, cells, [], free);
      SumIsLength(aData[..], cells);
      WithMeans(AllCells(), i, WithChild(cell, iChild));
      if iChild > 0 {
        ChildStored(cell, iChild);
      }
      if ovfl != [] || |cell| + 2 > nFree {
        ghost var was := ovfl;
        ovfl := ovfl + [Overflow(i, WithChild(cell, iChild))];
        assert ovfl[..|was|] == was;
      } else {
        InsertHere(i, cell, iChild);
      }
    }
  }

  /** The new start of the content area is written. */
  lemma GapTaken(d: seq<byte>, g: Shape, top: nat, frag: nat, cells: seq<Block>, free: seq<Block>, n: nat,
                 d': seq<byte>)
    requires Good(d, g, top, frag, cells, [], free)
    requires 4 <= n && g.off + 2 * |cells| + 2 + n <= top && d' == Put2(d, g.hdr + 5, top - n)
    ensures Good(d', g, top - n, frag, cells, [Block(top - n, n)], free)
    ensures forall i :: 0 <= i < |cells| ==> Kept(d, d', g, cells, i)
  {
    BodyOf(d, g, top, frag, cells, [], free);
    BodyTakeGap(d, g, top, frag, cells, free, n);
    forall k | 0 <= k < |free| ensures SameHead(d, d', free, k) {
      assert LinkAt(d, free, k) && FreeAt(free, top, g.usable, k);
    }
    ChainFrame(d, d', g.hdr + 1, free);
    InHeader(g, top, frag, cells, free);
    ElseSame(d, d', g, top, cells, top, 0);
    TakenFrom(d, d', g, top, frag, cells, free, top - n, frag, Block(top - n, n), free);
  }

  lemma CarriedOn(d0: seq<byte>, d: seq<byte>, d': seq<byte>, cells: seq<Block>, cells': seq<Block>)
    requires |cells| == |cells'|
    requires forall i :: 0 <= i < |cells| ==> CarriedAt(d0, d, cells, cells', i)
    requires forall i :: 0 <= i < |cells'| ==> SameBytes(d, d', cells'[i])
    ensures forall i :: 0 <= i < |cells| ==> CarriedAt(d0, d', cells, cells', i)
  {
    forall i | 0 <= i < |cells| ensures CarriedAt(d0, d', cells, cells', i) {
      assert CarriedAt(d0, d, cells, cells', i) && SameBytes(d, d', cells'[i]);
    }
  }

  lemma KeptCarries(d: seq<byte>, d': seq<byte>, g: Shape, cells: seq<Block>)
    requires forall i :: 0 <= i < |cells| ==> Kept(d, d', g, cells, i)
    ensures forall i :: 0 <= i < |cells| ==> CarriedAt(d, d', cells, cells, i)
  {
    forall i | 0 <= i < |cells| ensures CarriedAt(d, d', cells, cells, i) {
      assert Kept(d, d', g, cells, i);
    }
  }

  lemma NothingMoved(d: seq<byte>, g: Shape, top: nat, frag: nat, cells: seq<Block>, free: seq<Block>)
    requires Good(d, g, top, frag, cells, [], free)
    ensures forall i :: 0 <= i < |cells| ==> CarriedAt(d, d, cells, cells, i)
  {
    forall i | 0 <= i < |cells| ensures CarriedAt(d, d, cells, cells, i) {
      assert CellAt(d, g, cells, i);
    }
  }

  lemma CarriedTwice(d0: seq<byte>, d1: seq<byte>, d2: seq<byte>, cells0: seq<Block>, cells1: seq<Block>,
                     cells2: seq<Block>)
    requires |cells0| == |cells1| == |cells2|
    requires forall i :: 0 <= i < |cells0| ==> CarriedAt(d0, d1, cells0, cells1, i)
    requires forall i :: 0 <= i < |cells0| ==> CarriedAt(d1, d2, cells1, cells2, i)
    ensures forall i :: 0 <= i < |cells0| ==> CarriedAt(d0, d2, cells0, cells2, i)
  {
    forall i | 0 <= i < |cells0| ensures CarriedAt(d0, d2, cells0, cells2, i) {
      assert CarriedAt(d0, d1, cells0, cells1, i) && CarriedAt(d1, d2, cells1, cells2, i);
    }
  }

  /** An allocated block is inside the content area, and the header counts the cells. */
  lemma AllocatedBounds(d: seq<byte>, g: Shape, top: nat, frag: nat, cells: seq<Block>, b: Block, free: seq<Block>)
    requires Good(d, g, top, frag, cells, [b], free)
    ensures top <= b.pos && b.End() <= g.usable && 4 <= b.size && |cells| < 65535
    ensures Get2(d, g.hdr + 3) == |cells| && g.off + 2 * |cells| + 2 <= top
  {
    assert (cells + [b])[|cells|] == b;
    assert UsedAt(cells + [b], top, g.usable, |cells|);
  }

  lemma DropContents(d0: seq<byte>, d1: seq<byte>, d2: seq<byte>, g: Shape, cells: seq<Block>, m: nat)
    requires m < |cells| && |d0| == |d1| && forall i :: 0 <= i < |cells| ==> cells[i].End() <= |d0|
    requires forall i :: 0 <= i < |cells| && i != m ==> Kept(d0, d1, g, cells, i)
    requires forall j :: 0 <= j < |cells| - 1 ==> SameBytes(d1, d2, Without(cells, m)[j])
    ensures forall j :: 0 <= j < |cells| - 1 ==> Without(cells, m)[j].End() <= |d2|
    ensures CellBytes(d2, Without(cells, m)) == CellBytes(d0, cells)[..m] + CellBytes(d0, cells)[m + 1..]
  {
    var rest, was := Without(cells, m), CellBytes(d0, cells);
    forall j | 0 <= j < |cells| - 1
      ensures rest[j].End() <= |d2| && d2[rest[j].pos..rest[j].End()] == (was[..m] + was[m + 1..])[j]
    {
      var i := if j < m then j else j + 1;
      assert rest[j] == cells[i];
      assert SameBytes(d1, d2, rest[j]) && Kept(d0, d1, g, cells, i);
    }
  }

  lemma InsertContents(d0: seq<byte>, d1: seq<byte>, d2: seq<byte>, cells0: seq<Block>, cells1: seq<Block>, i: nat,
                       b: Block, cell: seq<byte>)
    requires i <= |cells0| == |cells1| && forall j :: 0 <= j < |cells0| ==> cells0[j].End() <= |d0|
    requires forall j :: 0 <= j < |cells0| ==> CarriedAt(d0, d1, cells0, cells1, j)
    requires forall j :: 0 <= j < |cells1| ==> SameBytes(d1, d2, cells1[j])
    requires b.End() <= |d2| && d2[b.pos..b.End()] == cell
    ensures forall j :: 0 <= j <= |cells1| ==> Inserted(cells1, i, b)[j].End() <= |d2|
    ensures CellBytes(d2, Inserted(cells1, i, b)) == With(CellBytes(d0, cells0), i, cell)
  {
    var now, was := Inserted(cells1, i, b), CellBytes(d0, cells0);
    forall h | 0 <= h <= |cells1|
      ensures now[h].End() <= |d2| && d2[now[h].pos..now[h].End()] == With(was, i, cell)[h]
    {
      if h != i {
        var j := if h < i then h else h - 1;
        assert CarriedAt(d0, d1, cells0, cells1, j) && SameBytes(d1, d2, cells1[j]);
      }
    }
  }

  // ----- whole runs

  datatype Op = Insert(i: nat, cell: seq<byte>, iChild: u32) | Drop(i: nat)

  /** The page's size limits, counted in bytes of cells and pointers only, allow the step. */
  ghost predicate Allows(g: Shape, cs: seq<seq<byte>>, op: Op) {
    match op
    case Insert(i, cell, iChild) =>
      && i <= |cs| && 4 <= |cell| && g.f(WithChild(cell, iChild)) == |cell|
      && g.off + 2 * |cs| + 2 + TotalLength(cs) + |cell| <= g.usable
    case Drop(i) => i < |cs|
  }

  ghost function Do(g: Shape, cs: seq<seq<byte>>, op: Op): seq<seq<byte>>
    requires Allows(g, cs, op)
  {
    match op
    case Insert(i, cell, iChild) => With(cs, i, WithChild(cell, iChild))
    case Drop(i) => cs[..i] + cs[i + 1..]
  }

  ghost predicate AllowsAll(g: Shape, cs: seq<seq<byte>>, ops: seq<Op>)
    decreases |ops|
  {
    ops == [] || (Allows(g, cs, ops[0]) && AllowsAll(g, Do(g, cs, ops[0]), ops[1..]))
  }

  ghost function DoAll(g: Shape, cs: seq<seq<byte>>, ops: seq<Op>): seq<seq<byte>>
    requires AllowsAll(g, cs, ops)
    decreases |ops|
  {
    if ops == [] then cs else DoAll(g, Do(g, cs, ops[0]), ops[1..])
  }

  /** Where a cell comes from: it was on the page, or operation k inserted it. */
  datatype Origin = Was(j: nat) | By(k: nat)

  /** Origins after one more operation, number k. */
  ghost function Moved(o: seq<Origin>, op: Op, k: nat): seq<Origin>
    requires match op case Insert(i, _, _) => i <= |o| case Drop(i) => i < |o|
  {
    match op
    case Insert(i, _, _) => o[..i] + [By(k)] + o[i..]
    case Drop(i) => o[..i] + o[i + 1..]
  }

  /** The cell is what its origin says, byte for byte, but for the child pointer it was given. */
  ghost predicate ComesFrom(was: seq<seq<byte>>, ops: seq<Op>, o: Origin, cell: seq<byte>) {
    match o
    case Was(j) => j < |was| && cell == was[j]
    case By(k) =>
      && k < |ops| && ops[k].Insert? && |cell| == |ops[k].cell| >= 4
      && (ops[k].iChild == 0 ==> cell == ops[k].cell)
      && (ops[k].iChild > 0 ==> Get4(cell, 0) == ops[k].iChild && cell[4..] == ops[k].cell[4..])
  }

  ghost predicate AllFrom(was: seq<seq<byte>>, ops: seq<Op>, o: seq<Origin>, cs: seq<seq<byte>>) {
    |o| == |cs| && forall x :: 0 <= x < |cs| ==> ComesFrom(was, ops, o[x], cs[x])
  }

  ghost function Origins(o: seq<Origin>, ops: seq<Op>, k: nat): seq<Origin>
    requires k <= |ops|
    decreases |ops| - k
  {
    if k == |ops| || !(match ops[k] case Insert(i, _, _) => i <= |o| case Drop(i) => i < |o|) then o
    else Origins(Moved(o, ops[k], k), ops, k + 1)
  }

  lemma StillFrom(g: Shape, was: seq<seq<byte>>, ops: seq<Op>, o: seq<Origin>, cs: seq<seq<byte>>, k: nat)
    requires k < |ops| && AllFrom(was, ops, o, cs) && Allows(g, cs, ops[k])
    ensures AllFrom(was, ops, Moved(o, ops[k], k), Do(g, cs, ops[k]))
  {
    var o', cs' := Moved(o, ops[k], k), Do(g, cs, ops[k]);
    if ops[k].Insert? && ops[k].iChild > 0 {
      ChildStored(ops[k].cell, ops[k].iChild);
    }
    forall x | 0 <= x < |cs'| ensures ComesFrom(was, ops, o'[x], cs'[x]) {
      var i := ops[k].i;
      if ops[k].Insert? {
        assert x != i ==> ComesFrom(was, ops, o[if x < i then x else x - 1], cs[if x < i then x else x - 1]);
      } else {
        assert ComesFrom(was, ops, o[if x < i then x else x + 1], cs[if x < i then x else x + 1]);
      }
    }
  }

  lemma {:induction false} FromOrigins(g: Shape, was: seq<seq<byte>>, ops: seq<Op>, o: seq<Origin>, cs: seq<seq<byte>>,
                                       k: nat)
    requires k <= |ops| && AllFrom(was, ops, o, cs) && AllowsAll(g, cs, ops[k..])
    ensures AllFrom(was, ops, Origins(o, ops, k), DoAll(g, cs, ops[k..]))
    decreases |ops| - k
  {
    if k == |ops| {
    } else {
      assert ops[k..][1..] == ops[k + 1..];
      StillFrom(g, was, ops, o, cs, k);
      FromOrigins(g, was, ops, Moved(o, ops[k], k), Do(g, cs, ops[k]), k + 1);
    }
  }

  /** Each cell starts as what it was. */
  ghost function Initially(n: nat): (r: seq<Origin>)
    ensures |r| == n && forall j :: 0 <= j < n ==> r[j] == Was(j)
  {
    seq(n, j requires 0 <= j < n => Was(j))
  }

  /** One insertion or removal on a page with nothing set aside. */
  method Step(p: MemPage, op: Op)
    requires p.Valid() && p.ovfl == [] && Allows(p.g, p.Contents(), op)
    modifies p, p.aData
    ensures p.Valid() && p.ovfl == [] && p.Contents() == Do(p.g, old(p.Contents()), op)
  {
    match op {
      case Insert(i, cell, iChild) =>
        p.InsertCell(i, cell, iChild);
      case Drop(i) =>
        var pc := Get2(p.aData[..], p.g.off + 2 * i);
        assert CellAt(p.aData[..], p.g, p.cells, i);
        p.DropCell(i, p.g.f(p.aData[pc..]));
    }
  }

  /** Any run: however the free space gets scattered, the page takes every cell that its
      free bytes add up to room for, and holds exactly the cells the run leaves. */
  method RunPage(p: MemPage, ops: seq<Op>)
    requires p.Valid() && p.ovfl == [] && AllowsAll(p.g, p.Contents(), ops)
    modifies p, p.aData
    ensures p.Valid() && p.ovfl == [] && p.Contents() == DoAll(p.g, old(p.Contents()), ops)
    ensures AllFrom(old(p.Contents()), ops, Origins(Initially(old(p.nCell)), ops, 0), p.Contents())
  {
    ghost var cs := p.Contents();
    assert ops[0..] == ops;
    FromOrigins(p.g, cs, ops, Initially(p.nCell), cs, 0);
    var rest := ops;
    while rest != []
      invariant p.Valid() && p.ovfl == [] && AllowsAll(p.g, cs, ops) && AllowsAll(p.g, p.Contents(), rest)
      invariant DoAll(p.g, p.Contents(), rest) == DoAll(p.g, cs, ops)
      decreases |rest|
    {
      Step(p, rest[0]);
      rest := rest[1..];
    }
  }

  /** What MemPage.nFree counts: the gap, the freeblocks and the fragments. */
  lemma FreeBytes(d: seq<byte>, g: Shape, top: nat, frag: nat, cells: seq<Block>, free: seq<Block>)
    requires Good(d, g, top, frag, cells, [], free)
    ensures g.usable - g.off - 2 * |cells| - Sum(cells) == (top - (g.off + 2 * |cells|)) + Sum(free) + frag
    ensures Disjoint(cells + free, top, g.usable) && |Uncovered(cells + free, top, g.usable)| == frag
  {
    assert cells + [] == cells;
    AllDisjoint(g.usable, top, cells, free);
    FragmentsExact(g.usable, top, frag, cells, free);
  }
}
