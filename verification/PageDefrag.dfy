/** Defragmenting a page: the cells end up at the end of the page, in one piece, with their
    bytes and their order as before. */
module PageDefrag {
  import opened Bytes
  import opened Blocks
  import opened PageLayout
  import opened PageBytes
  import opened PageImage

  // ----- the common end of both ways

  /** The page after the list head, the content start and the gap have been written. */
  function SealBytes(d: seq<byte>, g: Shape, n: nat, cbrk: nat): (r: seq<byte>)
    requires g.hdr + 8 <= g.off && g.off + 2 * n <= cbrk <= |d|
  {
    Zeroed(Put2(d, g.hdr + 5, cbrk)[g.hdr + 1 := 0][g.hdr + 2 := 0], g.off + 2 * n, cbrk - (g.off + 2 * n))
  }

  ghost predicate CellsIn(cells: seq<Block>, top: nat, usable: nat) {
    && (forall i :: 0 <= i < |cells| ==> UsedAt(cells, top, usable, i))
    && (forall i, j :: 0 <= i < j < |cells| ==> ApartAt(cells, i, j))
  }

  ghost predicate SealDone(d: seq<byte>, d': seq<byte>, g: Shape, n: nat, cbrk: nat) {
    && |d'| == |d| == g.usable && g.hdr + 8 <= g.off && g.off + 2 * n <= cbrk <= g.usable
    && Get2(d', g.hdr + 1) == 0 && NotZero(Get2(d', g.hdr + 5)) == cbrk
    && Get2(d', g.hdr + 3) == Get2(d, g.hdr + 3) && d'[g.hdr + 7] == d[g.hdr + 7]
    && (forall j :: g.off <= j < g.off + 2 * n ==> d'[j] == d[j])
    && (forall j :: cbrk <= j < |d| ==> d'[j] == d[j])
  }

  lemma SealFacts(d: seq<byte>, g: Shape, n: nat, cbrk: nat)
    requires |d| == g.usable <= 65536 && g.hdr + 8 <= g.off && g.off + 2 * n <= cbrk <= |d|
    ensures SealDone(d, SealBytes(d, g, n, cbrk), g, n, cbrk)
  {
  }

  lemma Sealed(d: seq<byte>, d': seq<byte>, g: Shape, frag: nat, cells: seq<Block>, cbrk: nat)
    requires g.Ok() && |d| == g.usable && g.off + 2 * |cells| <= cbrk <= g.usable && frag <= 60
    requires CellsIn(cells, cbrk, g.usable) && frag + Sum(cells) == g.usable - cbrk
    requires Get2(d, g.hdr + 3) == |cells| && d[g.hdr + 7] == frag
    requires forall i :: 0 <= i < |cells| ==> CellAt(d, g, cells, i)
    requires SealDone(d, d', g, |cells|, cbrk)
    ensures Good(d', g, cbrk, frag, cells, [], [])
    ensures forall i :: 0 <= i < |cells| ==> SameBytes(d, d', cells[i])
  {
    assert cells + [] == cells;
    forall i | 0 <= i < |cells| ensures CellAt(d', g, cells, i) && SameBytes(d, d', cells[i]) {
      assert CellAt(d, g, cells, i) && UsedAt(cells, cbrk, g.usable, i);
      KeptCell(d, d', g, cells, i);
    }
  }

  // ----- rebuilding from scratch

  /** Where cell i goes: below the cells before it, from the end of the page down. */
  ghost function NewPos(cells: seq<Block>, usable: nat, i: nat): int
    requires i < |cells|
  {
    usable - Sum(cells[..i + 1])
  }

  lemma {:induction false} SumPrefix(cells: seq<Block>, i: nat, j: nat)
    requires i <= j <= |cells|
    ensures Sum(cells[..i]) <= Sum(cells[..j]) <= Sum(cells)
    ensures i < j ==> Sum(cells[..i]) + cells[j - 1].size <= Sum(cells[..j])
    ensures i < |cells| ==> Sum(cells[..i + 1]) == Sum(cells[..i]) + cells[i].size
    decreases j
  {
    assert cells == cells[..j] + cells[j..];
    SumAppend(cells[..j], cells[j..]);
    if i < |cells| {
      assert cells[..i + 1] == cells[..i] + [cells[i]];
      SumAppend(cells[..i], [cells[i]]);
      SumOne(cells[i]);
    }
    if i < j {
      SumPrefix(cells, i, j - 1);
      assert cells[..j] == cells[..j - 1] + [cells[j - 1]];
      SumAppend(cells[..j - 1], [cells[j - 1]]);
      SumOne(cells[j - 1]);
    }
  }

  ghost predicate PackedAt(cells: seq<Block>, cells': seq<Block>, usable: nat, i: nat)
    requires i < |cells| == |cells'|
  {
    cells'[i].size == cells[i].size && cells'[i].pos == NewPos(cells, usable, i)
  }

  /** The cells at their new places. */
  ghost predicate IsPacked(cells: seq<Block>, cells': seq<Block>, usable: nat) {
    |cells'| == |cells| && forall i :: 0 <= i < |cells| ==> PackedAt(cells, cells', usable, i)
  }

  ghost function Packed(cells: seq<Block>, usable: nat): (r: seq<Block>)
    requires Sum(cells) <= usable
    ensures IsPacked(cells, r, usable)
  {
    seq(|cells|, i requires 0 <= i < |cells| =>
        (NewPosBounds(cells, usable, i); Block(NewPos(cells, usable, i), cells[i].size)))
  }

  lemma PackedSum(cells: seq<Block>, cells': seq<Block>, usable: nat)
    requires IsPacked(cells, cells', usable)
    ensures Sum(cells') == Sum(cells)
  {
    forall i | 0 <= i < |cells| ensures cells'[i].size == cells[i].size {
      assert PackedAt(cells, cells', usable, i);
    }
    SumSameSizes(cells', cells);
  }

  lemma PackedIn(cells: seq<Block>, cells': seq<Block>, usable: nat, top: nat)
    requires IsPacked(cells, cells', usable) && top == usable - Sum(cells)
    requires forall i :: 0 <= i < |cells| ==> 4 <= cells[i].size
    ensures CellsIn(cells', top, usable)
  {
    forall i | 0 <= i < |cells'| ensures UsedAt(cells', top, usable, i) {
      assert PackedAt(cells, cells', usable, i);
      NewPosBounds(cells, usable, i);
    }
    forall i, j | 0 <= i < j < |cells'| ensures ApartAt(cells', i, j) {
      assert PackedAt(cells, cells', usable, i) && PackedAt(cells, cells', usable, j);
      NewPosFalls(cells, usable, i, j);
    }
  }

  lemma NewPosBounds(cells: seq<Block>, usable: nat, i: nat)
    requires i < |cells|
    ensures usable - Sum(cells) <= NewPos(cells, usable, i)
    ensures NewPos(cells, usable, i) + cells[i].size == usable - Sum(cells[..i]) <= usable
  {
    SumPrefix(cells, i, |cells|);
    SumPrefix(cells, i + 1, |cells|);
  }

  lemma NewPosFalls(cells: seq<Block>, usable: nat, i: nat, j: nat)
    requires i < j < |cells|
    ensures NewPos(cells, usable, j) + cells[j].size <= NewPos(cells, usable, i)
  {
    SumPrefix(cells, i + 1, j);
    SumPrefix(cells, j, j);
  }

  /** Cell j has been copied to its new place. */
  ghost predicate DoneAt(d0: seq<byte>, d: seq<byte>, g: Shape, cells: seq<Block>, j: nat)
    requires j < |cells|
  {
    && 0 <= NewPos(cells, g.usable, j) && g.off + 2 * j + 1 < |d| == |d0| == g.usable && cells[j].End() <= |d0|
    && NewPos(cells, g.usable, j) + cells[j].size <= g.usable
    && Get2(d, g.off + 2 * j) == NewPos(cells, g.usable, j)
    && d[NewPos(cells, g.usable, j)..NewPos(cells, g.usable, j) + cells[j].size] == d0[cells[j].pos..cells[j].End()]
  }

  /** Cell j is still to be copied; it lies below `lim`. */
  ghost predicate TodoAt(d: seq<byte>, g: Shape, cells: seq<Block>, lim: nat, j: nat)
    requires j < |cells|
  {
    && g.off + 2 * j + 1 < |d| && cells[j].End() <= lim
    && Get2(d, g.off + 2 * j) == cells[j].pos
  }

  /** The rebuild loop before cell i.  Before the first cell that moves (`moved` false) the
      content area is untouched; from then on the cells still to be copied are safe in `tmp`,
      of which only the bytes from `top` up to `lim` are meaningful. */
  ghost predicate Rebuilding(d0: seq<byte>, d: seq<byte>, tmp: seq<byte>, g: Shape, top: nat, cells: seq<Block>, i: nat,
                             cbrk: nat, moved: bool, lim: nat) {
    && i <= |cells| && |d| == |d0| == |tmp| == g.usable && g.hdr + 8 <= g.off <= top <= g.usable
    && cbrk == g.usable - Sum(cells[..i]) && cbrk <= lim <= g.usable
    && (forall j :: 0 <= j < i ==> DoneAt(d0, d, g, cells, j))
    && (forall j :: i <= j < |cells| ==> TodoAt(d, g, cells, lim, j))
    && (forall j :: g.hdr <= j < g.hdr + 8 ==> d[j] == d0[j])
    && (if moved then forall y :: top <= y < lim ==> tmp[y] == d0[y]
        else lim == cbrk && forall y :: top <= y < |d| ==> d[y] == d0[y])
  }

  lemma RebuildStarts(d: seq<byte>, tmp: seq<byte>, g: Shape, top: nat, frag: nat, cells: seq<Block>, free: seq<Block>)
    requires Good(d, g, top, frag, cells, [], free) && |tmp| == |d|
    ensures Rebuilding(d, d, tmp, g, top, cells, 0, g.usable, false, g.usable)
  {
    CellRegions(g, top, frag, cells, [], free);
    forall j | 0 <= j < |cells| ensures TodoAt(d, g, cells, g.usable, j) {
      assert CellAt(d, g, cells, j) && UsedAt(cells, top, g.usable, j);
    }
  }

  /** The size of cell i as read from where its bytes are now. */
  lemma RebuildSize(d0: seq<byte>, src: seq<byte>, g: Shape, top: nat, frag: nat, cells: seq<Block>, free: seq<Block>,
                    i: nat)
    requires Good(d0, g, top, frag, cells, [], free) && i < |cells| && |src| == |d0|
    requires cells[i].End() <= |d0|
    requires forall y :: cells[i].pos <= y < cells[i].End() ==> src[y] == d0[y]
    ensures g.f(src[cells[i].pos..]) == cells[i].size
  {
    assert CellAt(d0, g, cells, i);
    assert src[cells[i].pos..cells[i].pos + cells[i].size] == d0[cells[i].pos..cells[i].pos + cells[i].size];
    SizeMoves(g.f, d0, cells[i].pos, src, cells[i].pos, cells[i].size);
  }

  /** Writing pointer i, and n bytes at p at or below cbrk, keeps the cells already done. */
  lemma DoneKept(d0: seq<byte>, d: seq<byte>, d': seq<byte>, g: Shape, cells: seq<Block>, i: nat, cbrk: nat, p: nat,
                 n: nat, j: nat)
    requires j < i < |cells| && DoneAt(d0, d, g, cells, j) && |d'| == |d|
    requires cbrk == g.usable - Sum(cells[..i]) && g.off + 2 * |cells| <= p && p + n <= cbrk
    requires forall y :: 0 <= y < |d| && y != g.off + 2 * i && y != g.off + 2 * i + 1 && !(p <= y < p + n) ==>
      d'[y] == d[y]
    ensures DoneAt(d0, d', g, cells, j)
  {
    SumPrefix(cells, j + 1, i);
  }

  lemma TodoKept(d: seq<byte>, d': seq<byte>, g: Shape, cells: seq<Block>, i: nat, p: nat, n: nat, lim: nat, lim': nat,
                 j: nat)
    requires i < j < |cells| && TodoAt(d, g, cells, lim, j) && |d'| == |d|
    requires g.off + 2 * |cells| <= p && cells[j].End() <= lim'
    requires forall y :: 0 <= y < |d| && y != g.off + 2 * i && y != g.off + 2 * i + 1 && !(p <= y < p + n) ==>
      d'[y] == d[y]
    ensures TodoAt(d', g, cells, lim', j)
  {
  }

  /** What the rebuild loop reads of cell i; `src` is the page, or the saved bytes. */
  lemma RebuildReads(d0: seq<byte>, d: seq<byte>, tmp: seq<byte>, src: seq<byte>, g: Shape, top: nat, frag: nat,
                     cells: seq<Block>, free: seq<Block>, i: nat, cbrk: nat, moved: bool, lim: nat)
    requires Good(d0, g, top, frag, cells, [], free) && Rebuilding(d0, d, tmp, g, top, cells, i, cbrk, moved, lim)
    requires i < |cells| && src == if moved then tmp else d
    ensures g.off + 2 * i + 1 < |d| && Get2(d, g.off + 2 * i) == cells[i].pos && cells[i].End() <= g.usable
    ensures 4 <= cells[i].size
    ensures g.f(src[cells[i].pos..]) == cells[i].size
    ensures g.off + 2 * |cells| <= top <= cells[i].pos && cells[i].End() <= lim
    ensures g.off + 2 * |cells| <= cbrk - cells[i].size
    ensures Get2(d, g.hdr + 5) == top <= cbrk
  {
    CellRegions(g, top, frag, cells, [], free);
    assert cells + [] == cells;
    assert UsedAt(cells, top, g.usable, i) && TodoAt(d, g, cells, lim, i);
    SumPrefix(cells, i, |cells|);
    SumPrefix(cells, i + 1, |cells|);
    RebuildSize(d0, src, g, top, frag, cells, free, i);
  }

  /** Cell i stays where it is: only its pointer is written. */
  lemma RebuildKeep(d0: seq<byte>, d: seq<byte>, d': seq<byte>, tmp: seq<byte>, g: Shape, top: nat, frag: nat,
                    cells: seq<Block>, free: seq<Block>, i: nat, cbrk: nat)
    requires Good(d0, g, top, frag, cells, [], free)
    requires Rebuilding(d0, d, tmp, g, top, cells, i, cbrk, false, cbrk) && i < |cells|
    requires cells[i].pos + cells[i].size == cbrk && g.off + 2 * i + 1 < |d|
    requires d' == Put2(d, g.off + 2 * i, cells[i].pos)
    ensures Rebuilding(d0, d', tmp, g, top, cells, i + 1, cells[i].pos, false, cells[i].pos)
  {
    CellRegions(g, top, frag, cells, [], free);
    SumPrefix(cells, i, i);
    assert UsedAt(cells, top, g.usable, i);
    forall j | 0 <= j <= i ensures DoneAt(d0, d', g, cells, j) {
      if j < i {
        assert DoneAt(d0, d, g, cells, j);
        DoneKept(d0, d, d', g, cells, i, cbrk, cbrk, 0, j);
      }
    }
    forall j | i + 1 <= j < |cells| ensures TodoAt(d', g, cells, cells[i].pos, j) {
      assert TodoAt(d, g, cells, cbrk, j) && ApartAt(cells, i, j) && UsedAt(cells, top, g.usable, j);
      TodoKept(d, d', g, cells, i, cbrk, 0, cbrk, cells[i].pos, j);
    }
  }

  /** The first cell that moves: what is still to be copied is saved first. */
  lemma RebuildSave(d0: seq<byte>, d: seq<byte>, d1: seq<byte>, tmp: seq<byte>, tmp': seq<byte>, g: Shape, top: nat,
                    cells: seq<Block>, i: nat, cbrk: nat, v: nat)
    requires Rebuilding(d0, d, tmp, g, top, cells, i, cbrk, false, cbrk) && top <= cbrk && i < |cells|
    requires g.off + 2 * |cells| <= top && d1 == Put2(d, g.off + 2 * i, v)
    requires tmp' == Copied(tmp, top, d1, top, cbrk - top)
    ensures Rebuilding(d0, d, tmp', g, top, cells, i, cbrk, true, cbrk)
  {
  }

  /** Cell i is copied from the saved bytes to its new place. */
  lemma RebuildMove(d0: seq<byte>, d: seq<byte>, d': seq<byte>, tmp: seq<byte>, g: Shape, top: nat, frag: nat,
                    cells: seq<Block>, free: seq<Block>, i: nat, cbrk: nat, lim: nat)
    requires Good(d0, g, top, frag, cells, [], free)
    requires Rebuilding(d0, d, tmp, g, top, cells, i, cbrk, true, lim) && i < |cells|
    requires cells[i].size <= cbrk && g.off + 2 * |cells| <= cbrk - cells[i].size && cells[i].End() <= |tmp|
    requires d' ==
      Copied(Put2(d, g.off + 2 * i, cbrk - cells[i].size), cbrk - cells[i].size, tmp, cells[i].pos, cells[i].size)
    ensures Rebuilding(d0, d', tmp, g, top, cells, i + 1, cbrk - cells[i].size, true, lim)
  {
    var p, n := cbrk - cells[i].size, cells[i].size;
    CellRegions(g, top, frag, cells, [], free);
    SumPrefix(cells, i, i);
    assert UsedAt(cells, top, g.usable, i) && TodoAt(d, g, cells, lim, i);
    forall j | 0 <= j <= i ensures DoneAt(d0, d', g, cells, j) {
      if j < i {
        assert DoneAt(d0, d, g, cells, j);
        DoneKept(d0, d, d', g, cells, i, cbrk, p, n, j);
      } else {
        MovedThere(d0, d, d', tmp, g, cells, i, p);
      }
    }
    forall j | i + 1 <= j < |cells| ensures TodoAt(d', g, cells, lim, j) {
      assert TodoAt(d, g, cells, lim, j);
      TodoKept(d, d', g, cells, i, p, n, lim, lim, j);
    }
  }

  lemma MovedThere(d0: seq<byte>, d: seq<byte>, d': seq<byte>, tmp: seq<byte>, g: Shape, cells: seq<Block>, i: nat,
                   p: nat)
    requires i < |cells| && |d| == |d0| == |tmp| == g.usable <= 65536 && p == NewPos(cells, g.usable, i)
    requires p + cells[i].size <= g.usable
    requires g.off + 2 * i + 2 <= p && cells[i].End() <= |tmp| && 4 <= cells[i].size
    requires forall y :: cells[i].pos <= y < cells[i].End() ==> tmp[y] == d0[y]
    requires d' == Copied(Put2(d, g.off + 2 * i, p), p, tmp, cells[i].pos, cells[i].size)
    ensures DoneAt(d0, d', g, cells, i)
  {
    assert d'[p..p + cells[i].size] == tmp[cells[i].pos..cells[i].End()];
    assert d'[p..p + cells[i].size] == d0[cells[i].pos..cells[i].End()];
  }

  /** All cells copied: each is whole at its new place. */
  lemma RebuildEnds(d0: seq<byte>, d: seq<byte>, tmp: seq<byte>, g: Shape, top: nat, frag: nat, cells: seq<Block>,
                    free: seq<Block>, cbrk: nat, moved: bool, lim: nat, d1: seq<byte>, cells': seq<Block>)
    requires Good(d0, g, top, frag, cells, [], free)
    requires Rebuilding(d0, d, tmp, g, top, cells, |cells|, cbrk, moved, lim) && d1 == d[g.hdr + 7 := 0]
    requires IsPacked(cells, cells', g.usable) && CellsIn(cells', cbrk, g.usable) && top <= cbrk
    ensures forall i :: 0 <= i < |cells| ==> CellAt(d1, g, cells', i) && CarriedAt(d0, d1, cells, cells', i)
  {
    forall i | 0 <= i < |cells| ensures CellAt(d1, g, cells', i) && CarriedAt(d0, d1, cells, cells', i) {
      assert PackedAt(cells, cells', g.usable, i);
      assert DoneAt(d0, d, g, cells, i) && CellAt(d0, g, cells, i) && UsedAt(cells', cbrk, g.usable, i);
      assert d1[cells'[i].pos..cells'[i].End()] == d[cells'[i].pos..cells'[i].End()];
      SizeMoves(g.f, d0, cells[i].pos, d1, cells'[i].pos, cells[i].size);
    }
  }

  /** Packing the cells leaves no less room than there was. */
  lemma PackedRoom(d0: seq<byte>, g: Shape, top: nat, frag: nat, cells: seq<Block>, free: seq<Block>,
                   cells': seq<Block>)
    requires Good(d0, g, top, frag, cells, [], free) && IsPacked(cells, cells', g.usable)
    ensures Sum(cells') == Sum(cells) <= g.usable - top
    ensures CellsIn(cells', g.usable - Sum(cells), g.usable)
  {
    assert cells + [] == cells;
    forall i | 0 <= i < |cells| ensures 4 <= cells[i].size {
      assert UsedAt(cells, top, g.usable, i);
    }
    PackedSum(cells, cells', g.usable);
    PackedIn(cells, cells', g.usable, g.usable - Sum(cells));
  }

  /** Cell i, at a new place, has the bytes it had. */
  ghost predicate CarriedAt(d0: seq<byte>, d: seq<byte>, cells: seq<Block>, cells': seq<Block>, i: nat)
    requires i < |cells| == |cells'|
  {
    && cells[i].End() <= |d0| && cells'[i].End() <= |d| && cells'[i].size == cells[i].size
    && d[cells'[i].pos..cells'[i].End()] == d0[cells[i].pos..cells[i].End()]
  }

  // ----- one or two freeblocks: moving the blocks of cells between them

  /** The space of freeblock 0 and, if there is one, of freeblock 1. */
  function Second(free: seq<Block>): (n: nat) {
    if |free| == 2 then free[1].size else 0
  }

  function Total(free: seq<Block>): (n: nat)
    requires free != []
  {
    free[0].size + Second(free)
  }

  /** How far a cell at pc moves up. */
  function Shift(free: seq<Block>, pc: nat): (n: nat)
    requires free != []
  {
    if pc < free[0].pos then Total(free) else if |free| == 2 && pc < free[1].pos then Second(free) else 0
  }

  ghost predicate ShiftedAt(cells: seq<Block>, cells': seq<Block>, free: seq<Block>, i: nat)
    requires free != [] && i < |cells| == |cells'|
  {
    cells'[i] == Block(cells[i].pos + Shift(free, cells[i].pos), cells[i].size)
  }

  ghost predicate IsShifted(cells: seq<Block>, cells': seq<Block>, free: seq<Block>)
    requires free != []
  {
    |cells'| == |cells| && forall i :: 0 <= i < |cells| ==> ShiftedAt(cells, cells', free, i)
  }

  /** The memmove over one freeblock, and the two over two. */
  function SlideOver1(d: seq<byte>, top: nat, iFree: nat, sz: nat): (r: seq<byte>)
    requires top <= iFree && iFree + sz <= |d|
  {
    Copied(d, top + sz, d, top, iFree - top)
  }

  function SlideOver2(d: seq<byte>, top: nat, iFree: nat, sz: nat, iFree2: nat, sz2: nat): (r: seq<byte>)
    requires top <= iFree && iFree + sz <= iFree2 && iFree2 + sz2 <= |d|
  {
    SlideOver1(Copied(d, iFree + sz + sz2, d, iFree + sz, iFree2 - (iFree + sz)), top, iFree, sz + sz2)
  }

  lemma SlideTwice(d: seq<byte>, d1: seq<byte>, top: nat, iFree: nat, sz: nat, iFree2: nat, sz2: nat)
    requires top <= iFree && iFree + sz <= iFree2 && iFree2 + sz2 <= |d|
    requires d1 == Copied(d, iFree + sz + sz2, d, iFree + sz, iFree2 - (iFree + sz))
    ensures SlideOver1(d1, top, iFree, sz + sz2) == SlideOver2(d, top, iFree, sz, iFree2, sz2)
  {
  }

  function SlideBytes(d: seq<byte>, top: nat, free: seq<Block>): (r: seq<byte>)
    requires 1 <= |free| <= 2 && top <= free[0].pos && free[0].End() <= |d|
    requires |free| == 2 ==> free[0].End() <= free[1].pos && free[1].End() <= |d|
  {
    if |free| == 2 then SlideOver2(d, top, free[0].pos, free[0].size, free[1].pos, free[1].size)
    else SlideOver1(d, top, free[0].pos, free[0].size)
  }

  /** Which of the blocks of cells cell i is in. */
  lemma CellPlace(usable: nat, top: nat, cells: seq<Block>, free: seq<Block>, i: nat)
    requires Regions(usable, top, cells, free) && 1 <= |free| <= 2 && i < |cells|
    ensures top < free[0].pos && free[0].End() <= usable && Within(cells[i], top, usable) && 4 <= cells[i].size
    ensures cells[i].pos < free[0].pos ==> cells[i].End() <= free[0].pos
    ensures cells[i].pos >= free[0].pos ==> free[0].End() <= cells[i].pos
    ensures |free| == 2 ==> free[0].End() <= free[1].pos && free[1].End() <= usable
    ensures |free| == 2 && cells[i].pos < free[1].pos ==> cells[i].End() <= free[1].pos
    ensures |free| == 2 && cells[i].pos >= free[1].pos ==> free[1].End() <= cells[i].pos
  {
    assert UsedAt(cells, top, usable, i) && FreeAt(free, top, usable, 0) && CrossAt(cells, free, i, 0);
    if |free| == 2 {
      assert FreeAt(free, top, usable, 1) && CrossAt(cells, free, i, 1) && SortedAt(free, 0, 1);
    }
  }

  lemma ShiftedIn(usable: nat, top: nat, cells: seq<Block>, free: seq<Block>, cells': seq<Block>, top': nat)
    requires Regions(usable, top, cells, free) && 1 <= |free| <= 2 && IsShifted(cells, cells', free)
    requires top' == top + Total(free)
    ensures CellsIn(cells', top', usable) && Sum(cells') == Sum(cells)
  {
    forall i | 0 <= i < |cells'| ensures UsedAt(cells', top', usable, i) && cells'[i].size == cells[i].size {
      assert ShiftedAt(cells, cells', free, i);
      CellPlace(usable, top, cells, free, i);
    }
    SumSameSizes(cells', cells);
    forall i, j | 0 <= i < j < |cells'| ensures ApartAt(cells', i, j) {
      assert ShiftedAt(cells, cells', free, i) && ShiftedAt(cells, cells', free, j) && ApartAt(cells, i, j);
      CellPlace(usable, top, cells, free, i);
      CellPlace(usable, top, cells, free, j);
    }
  }

  /** Where the byte at y comes from. */
  ghost function SlideSource(top: nat, free: seq<Block>, y: nat): int
    requires 1 <= |free| <= 2
  {
    if top + Total(free) <= y < free[0].pos + Total(free) then y - Total(free)
    else if |free| == 2 && free[0].End() + free[1].size <= y < free[1].pos + free[1].size then y - free[1].size
    else y
  }

  lemma SlideByte(d: seq<byte>, top: nat, free: seq<Block>, y: nat)
    requires 1 <= |free| <= 2 && top <= free[0].pos && free[0].End() <= |d| && y < |d|
    requires |free| == 2 ==> free[0].End() <= free[1].pos && free[1].End() <= |d|
    ensures |SlideBytes(d, top, free)| == |d| && 0 <= SlideSource(top, free, y) < |d|
    ensures SlideBytes(d, top, free)[y] == d[SlideSource(top, free, y)]
  {
  }

  lemma SlideAll(d: seq<byte>, d': seq<byte>, top: nat, free: seq<Block>)
    requires 1 <= |free| <= 2 && top <= free[0].pos && free[0].End() <= |d|
    requires |free| == 2 ==> free[0].End() <= free[1].pos && free[1].End() <= |d|
    requires d' == SlideBytes(d, top, free)
    ensures Slid(d, d', top, free)
  {
    forall y | 0 <= y < |d|
      ensures 0 <= SlideSource(top, free, y) < |d| && |d'| == |d| && d'[y] == d[SlideSource(top, free, y)]
    {
      SlideByte(d, top, free, y);
    }
  }

  ghost predicate Slid(d: seq<byte>, d': seq<byte>, top: nat, free: seq<Block>)
    requires 1 <= |free| <= 2
  {
    && |d'| == |d|
    && forall y :: 0 <= y < |d| ==> 0 <= SlideSource(top, free, y) < |d| && d'[y] == d[SlideSource(top, free, y)]
  }

  /** A cell's bytes arrive at its new place. */
  ghost predicate SlidAt(d: seq<byte>, d': seq<byte>, cells: seq<Block>, free: seq<Block>, i: nat)
    requires free != [] && i < |cells|
  {
    var p := cells[i].pos + Shift(free, cells[i].pos);
    && p + cells[i].size <= |d| == |d'| && cells[i].End() <= |d|
    && d'[p..p + cells[i].size] == d[cells[i].pos..cells[i].End()]
  }

  lemma SlideCarries(d: seq<byte>, d': seq<byte>, top: nat, cells: seq<Block>, free: seq<Block>, i: nat)
    requires Regions(|d|, top, cells, free) && 1 <= |free| <= 2 && i < |cells|
    requires Slid(d, d', top, free)
    ensures SlidAt(d, d', cells, free, i)
  {
    CellPlace(|d|, top, cells, free, i);
    var p := cells[i].pos + Shift(free, cells[i].pos);
    forall y | p <= y < p + cells[i].size ensures d'[y] == d[y - p + cells[i].pos] {
      assert SlideSource(top, free, y) == y - p + cells[i].pos;
    }
    SameSlice(d', p, d, cells[i].pos, cells[i].size);
  }

  lemma SameSlice(d': seq<byte>, p: nat, d: seq<byte>, q: nat, n: nat)
    requires p + n <= |d'| && q + n <= |d| && forall y :: p <= y < p + n ==> d'[y] == d[y - p + q]
    ensures d'[p..p + n] == d[q..q + n]
  {
  }

  /** The cell-pointer array while the pointers of the first i cells have been adjusted: d1 is
      the page after the memmoves. */
  ghost predicate Adjusting(d0: seq<byte>, d1: seq<byte>, d: seq<byte>, g: Shape, cells: seq<Block>, free: seq<Block>,
                            i: nat)
    requires free != []
  {
    && |d| == |d1| == |d0| == g.usable && i <= |cells| && g.off + 2 * |cells| <= g.usable
    && (forall j :: 0 <= j < |d| && !(g.off <= j < g.off + 2 * |cells|) ==> d[j] == d1[j])
    && (forall j :: 0 <= j < |cells| ==> AdjustedAt(d, g, cells, free, i, j))
  }

  ghost predicate AdjustedAt(d: seq<byte>, g: Shape, cells: seq<Block>, free: seq<Block>, i: nat, j: nat)
    requires free != [] && j < |cells|
  {
    && g.off + 2 * j + 1 < |d|
    && Get2(d, g.off + 2 * j) == cells[j].pos + if j < i then Shift(free, cells[j].pos) else 0
  }

  lemma AdjustStep(d0: seq<byte>, d1: seq<byte>, d: seq<byte>, d': seq<byte>, g: Shape, cells: seq<Block>,
                   free: seq<Block>, i: nat)
    requires free != [] && Adjusting(d0, d1, d, g, cells, free, i) && i < |cells|
    requires cells[i].pos + Shift(free, cells[i].pos) < 65536
    requires g.off + 2 * i + 1 < |d|
    requires d' ==
      if Shift(free, cells[i].pos) == 0 then d else Put2(d, g.off + 2 * i, cells[i].pos + Shift(free, cells[i].pos))
    ensures Adjusting(d0, d1, d', g, cells, free, i + 1)
  {
    var next := i + 1;
    forall j | 0 <= j < |cells| ensures AdjustedAt(d', g, cells, free, next, j) {
      assert AdjustedAt(d, g, cells, free, i, j);
    }
  }

  /** The pointers adjusted: each cell is whole at its new place. */
  lemma SlideOne(d0: seq<byte>, d1: seq<byte>, d: seq<byte>, g: Shape, top: nat, cells: seq<Block>, free: seq<Block>,
                 cells': seq<Block>, i: nat)
    requires LocalSize(g.f) && free != [] && |cells'| == |cells| && i < |cells| && g.off + 2 * |cells| <= cells[i].pos
    requires CellAt(d0, g, cells, i) && ShiftedAt(cells, cells', free, i)
    requires SlidAt(d0, d1, cells, free, i) && Adjusting(d0, d1, d, g, cells, free, |cells|)
    ensures CellAt(d, g, cells', i) && CarriedAt(d0, d, cells, cells', i)
  {
    assert AdjustedAt(d, g, cells, free, |cells|, i);
    SameSlice(d, cells'[i].pos, d1, cells'[i].pos, cells[i].size);
    SizeMoves(g.f, d0, cells[i].pos, d, cells'[i].pos, cells[i].size);
  }

  lemma SlideEnds(d0: seq<byte>, d1: seq<byte>, d: seq<byte>, g: Shape, top: nat, frag: nat, cells: seq<Block>,
                  free: seq<Block>, cells': seq<Block>)
    requires Good(d0, g, top, frag, cells, [], free) && 1 <= |free| <= 2 && IsShifted(cells, cells', free)
    requires Slid(d0, d1, top, free)
    requires Adjusting(d0, d1, d, g, cells, free, |cells|)
    ensures forall i :: 0 <= i < |cells| ==> CellAt(d, g, cells', i) && CarriedAt(d0, d, cells, cells', i)
  {
    assert cells + [] == cells;
    forall i | 0 <= i < |cells| ensures CellAt(d, g, cells', i) && CarriedAt(d0, d, cells, cells', i) {
      assert ShiftedAt(cells, cells', free, i) && CellAt(d0, g, cells, i) && UsedAt(cells, top, g.usable, i);
      SlideCarries(d0, d1, top, cells, free, i);
      SlideOne(d0, d1, d, g, top, cells, free, cells', i);
    }
  }

  /** The memmoves leave everything below the content area alone. */
  lemma SlideStarts(d0: seq<byte>, d1: seq<byte>, g: Shape, top: nat, frag: nat, cells: seq<Block>, free: seq<Block>)
    requires Good(d0, g, top, frag, cells, [], free) && 1 <= |free| <= 2 && Slid(d0, d1, top, free)
    ensures Adjusting(d0, d1, d1, g, cells, free, 0)
    ensures forall y :: 0 <= y < top ==> d1[y] == d0[y]
  {
    assert cells + [] == cells;
    assert FreeAt(free, top, g.usable, 0);
    assert |free| == 2 ==> SortedAt(free, 0, 1);
    forall y | 0 <= y < top ensures d1[y] == d0[y] {
      assert SlideSource(top, free, y) == y;
    }
    forall j | 0 <= j < |cells| ensures AdjustedAt(d1, g, cells, free, 0, j) {
      assert CellAt(d0, g, cells, j);
    }
  }

  /** The cells shifted. */
  ghost function Shifted(cells: seq<Block>, free: seq<Block>): (r: seq<Block>)
    requires free != []
    ensures IsShifted(cells, r, free)
  {
    seq(|cells|, i requires 0 <= i < |cells| => Block(cells[i].pos + Shift(free, cells[i].pos), cells[i].size))
  }

  /** A shifted cell still ends within the page. */
  lemma ShiftFits(usable: nat, top: nat, cells: seq<Block>, free: seq<Block>, i: nat)
    requires Regions(usable, top, cells, free) && 1 <= |free| <= 2 && i < |cells|
    ensures cells[i].pos + Shift(free, cells[i].pos) + cells[i].size <= usable && 4 <= cells[i].size
  {
    CellPlace(usable, top, cells, free, i);
  }

  lemma SumTwo(free: seq<Block>)
    requires 1 <= |free| <= 2
    ensures Sum(free) == Total(free)
  {
    if |free| == 2 {
      assert free[1..] == [free[1]];
      SumOne(free[1]);
    } else {
      assert free == [free[0]];
      SumOne(free[0]);
    }
  }

  /** What sealing a page needs: cells at `cbrk` and up, with a known number of fragment bytes. */
  ghost predicate Sealable(d: seq<byte>, g: Shape, cells: seq<Block>, cbrk: nat, frag: nat) {
    && g.Ok() && |d| == g.usable && g.off + 2 * |cells| <= cbrk <= g.usable && frag <= 60
    && CellsIn(cells, cbrk, g.usable) && frag + Sum(cells) == g.usable - cbrk
    && Get2(d, g.hdr + 3) == |cells| && d[g.hdr + 7] == frag
    && forall i :: 0 <= i < |cells| ==> CellAt(d, g, cells, i)
  }

  lemma SlidePrepares(d0: seq<byte>, d1: seq<byte>, d2: seq<byte>, g: Shape, top: nat, frag: nat, cells: seq<Block>,
                      free: seq<Block>, cells': seq<Block>, cbrk: nat)
    requires Good(d0, g, top, frag, cells, [], free) && 1 <= |free| <= 2 && IsShifted(cells, cells', free)
    requires Slid(d0, d1, top, free) && Adjusting(d0, d1, d2, g, cells, free, |cells|) && cbrk == top + Total(free)
    ensures Sealable(d2, g, cells', cbrk, frag) && Sum(cells') == Sum(cells)
    ensures forall i :: 0 <= i < |cells| ==> CarriedAt(d0, d2, cells, cells', i)
  {
    assert cells + [] == cells;
    SlideStarts(d0, d1, g, top, frag, cells, free);
    ShiftedIn(g.usable, top, cells, free, cells', cbrk);
    SlideEnds(d0, d1, d2, g, top, frag, cells, free, cells');
    SumTwo(free);
  }

  /** The rebuilt page is ready to be sealed. */
  lemma RebuildPrepares(d0: seq<byte>, d: seq<byte>, tmp: seq<byte>, g: Shape, top: nat, frag: nat, cells: seq<Block>,
                        free: seq<Block>, cbrk: nat, moved: bool, lim: nat, d1: seq<byte>, cells': seq<Block>)
    requires Good(d0, g, top, frag, cells, [], free) && IsPacked(cells, cells', g.usable)
    requires Rebuilding(d0, d, tmp, g, top, cells, |cells|, cbrk, moved, lim) && d1 == d[g.hdr + 7 := 0]
    ensures Sealable(d1, g, cells', cbrk, 0) && Sum(cells') == Sum(cells)
    ensures forall i :: 0 <= i < |cells| ==> CarriedAt(d0, d1, cells, cells', i)
  {
    assert cells[..|cells|] == cells;
    PackedRoom(d0, g, top, frag, cells, free, cells');
    RebuildEnds(d0, d, tmp, g, top, frag, cells, free, cbrk, moved, lim, d1, cells');
  }
}
