/** editPage and rebuildPage: whichever way it is done, the page ends up with exactly the cells
    assigned to it, each with the bytes it had before. */
module EditInPlace {
  import opened Bytes
  import opened Blocks
  import opened PageLayout
  import opened PageBytes
  import opened PageImage
  import opened PageSpace
  import opened PageEdit

  // ----- what is wanted

  /** The bytes of a cell of n bytes, as they were on page d0 or are elsewhere. */
  ghost function OldBytes(d0: seq<byte>, r: Ref, n: nat): seq<byte> {
    match r
    case Here(pos) => if pos + n <= |d0| then d0[pos..pos + n] else []
    case There(bytes) => bytes
  }

  /** The cells lo .. hi are cells of the page's kind, of the sizes given. */
  ghost predicate Proper(d0: seq<byte>, g: Shape, arr: seq<Ref>, sz: seq<nat>, lo: nat, hi: nat) {
    |sz| == |arr| && lo <= hi <= |arr| && forall c :: lo <= c < hi ==> ProperAt(d0, g, arr, sz, c)
  }

  ghost predicate ProperAt(d0: seq<byte>, g: Shape, arr: seq<Ref>, sz: seq<nat>, c: nat)
    requires c < |arr| == |sz|
  {
    var b := OldBytes(d0, arr[c], sz[c]);
    4 <= sz[c] == |b| && g.f(b) == |b|
  }

  ghost function Wanted(d0: seq<byte>, arr: seq<Ref>, sz: seq<nat>, ix: seq<nat>): (r: seq<seq<byte>>)
    requires |sz| == |arr| && forall i :: 0 <= i < |ix| ==> ix[i] < |arr|
    ensures |r| == |ix| && forall i :: 0 <= i < |ix| ==> r[i] == OldBytes(d0, arr[ix[i]], sz[ix[i]])
  {
    seq(|ix|, i requires 0 <= i < |ix| => OldBytes(d0, arr[ix[i]], sz[ix[i]]))
  }

  ghost function Total(sz: seq<nat>, lo: nat, hi: nat): (n: nat)
    requires lo <= hi <= |sz|
    decreases hi - lo
  {
    if lo == hi then 0 else Total(sz, lo, hi - 1) + sz[hi - 1]
  }

  lemma {:induction false} TotalGrows(sz: seq<nat>, lo: nat, m: nat, hi: nat)
    requires lo <= m <= hi <= |sz|
    ensures Total(sz, lo, m) <= Total(sz, lo, hi)
    decreases hi - m
  {
    if m == hi {
    } else {
      TotalGrows(sz, lo, m, hi - 1);
    }
  }

  // ----- a page with its pointers

  /** Cell i is in its block, with its pointer in slot i. */
  ghost predicate CurAt(d: seq<byte>, g: Shape, cur: seq<Block>, bs: seq<seq<byte>>, i: nat)
    requires i < |cur| <= |bs|
  {
    && cur[i].End() <= |d| && d[cur[i].pos..cur[i].End()] == bs[i]
    && g.off + 2 * i + 1 < |d| && Get2(d, g.off + 2 * i) == cur[i].pos
  }

  /** Layout, pointers and header together make a well-formed page. */
  lemma Finished(d: seq<byte>, g: Shape, top: nat, frag: nat, cur: seq<Block>, free: seq<Block>, bs: seq<seq<byte>>)
    requires Body(d, g, top, frag, cur, free) && g.off + 2 * |cur| <= top
    requires Get2(d, g.hdr + 3) == |cur| && NotZero(Get2(d, g.hdr + 5)) == top
    requires |bs| == |cur| && forall i :: 0 <= i < |cur| ==> CurAt(d, g, cur, bs, i) && g.f(bs[i]) == |bs[i]|
    ensures Good(d, g, top, frag, cur, [], free)
    ensures (forall i :: 0 <= i < |cur| ==> cur[i].End() <= |d|) && CellBytes(d, cur) == bs
  {
    assert cur + [] == cur;
    forall i | 0 <= i < |cur| ensures CellAt(d, g, cur, i) && cur[i].End() <= |d| {
      assert CurAt(d, g, cur, bs, i);
      assert bs[i][0..] == bs[i] && bs[i][0..|bs[i]|] == bs[i];
      SizeMoves(g.f, bs[i], 0, d, cur[i].pos, |bs[i]|);
    }
  }

  // ----- rebuildPage

  /** What rebuildPage has in hand: |cur| cells stacked from the end of the page down. */
  ghost predicate Stacking(d: seq<byte>, g: Shape, pBegin: nat, pData: nat, cur: seq<Block>, bs: seq<seq<byte>>) {
    && g.Ok() && |d| == g.usable && g.off + 2 * |bs| <= pBegin <= pData <= g.usable
    && |cur| <= |bs| && Space(g.usable, pData, 0, cur, [])
    && forall i :: 0 <= i < |cur| ==> CurAt(d, g, cur, bs, i)
  }

  /** One more cell below the others. */
  lemma StackDoes(d: seq<byte>, g: Shape, pBegin: nat, pData: nat, cur: seq<Block>, bs: seq<seq<byte>>, cell: seq<byte>)
    requires Stacking(d, g, pBegin, pData, cur, bs) && |cur| < |bs| && cell == bs[|cur|] && 4 <= |cell|
    requires pBegin + |cell| <= pData
    ensures pData - |cell| < 65536 && g.off + 2 * |cur| + 1 < |d|
    ensures var p := pData - |cell|;
      Stacking(Copied(Put2(d, g.off + 2 * |cur|, p), p, cell, 0, |cell|), g, pBegin, p, cur + [Block(p, |cell|)], bs)
  {
    var p, n := pData - |cell|, |cur|;
    var d' := Copied(Put2(d, g.off + 2 * n, p), p, cell, 0, |cell|);
    var cur' := cur + [Block(p, |cell|)];
    TakeGap(g.usable, pData, 0, cur, [], |cell|);
    forall i | 0 <= i < |cur'| ensures CurAt(d', g, cur', bs, i) {
      if i < n {
        assert CurAt(d, g, cur, bs, i) && UsedAt(cur, pData, g.usable, i);
        assert d'[cur[i].pos..cur[i].End()] == d[cur[i].pos..cur[i].End()];
      } else {
        assert d'[p..p + |cell|] == cell;
      }
    }
  }

  /** The cells that are on the page have been saved: tmp has them where the page had them. */
  ghost predicate Saved(tmp: seq<byte>, arr: seq<Ref>, sz: seq<nat>, ix: seq<nat>, bs: seq<seq<byte>>) {
    && |sz| == |arr| && |bs| == |ix|
    && forall i :: 0 <= i < |ix| ==> SavedAt(tmp, arr, sz, ix, bs, i)
  }

  ghost predicate SavedAt(tmp: seq<byte>, arr: seq<Ref>, sz: seq<nat>, ix: seq<nat>, bs: seq<seq<byte>>, i: nat)
    requires i < |ix| == |bs| && |sz| == |arr|
  {
    ix[i] < |arr| && |bs[i]| == sz[ix[i]] >= 4 && OldBytes(tmp, arr[ix[i]], sz[ix[i]]) == bs[i]
  }

  /** One cell of rebuildPage. */
  method StackOne(a: array<byte>, g: Shape, pBegin: nat, pData0: nat, slot: nat, cell: seq<byte>, ghost cur: seq<Block>,
                  ghost bs: seq<seq<byte>>)
    returns (pData: nat)
    requires Stacking(a[..], g, pBegin, pData0, cur, bs) && slot == |cur| < |bs| && cell == bs[slot] && 4 <= |cell|
    requires pBegin + |cell| <= pData0
    modifies a
    ensures pData == pData0 - |cell| && Stacking(a[..], g, pBegin, pData, cur + [Block(pData, |cell|)], bs)
    ensures forall j :: g.hdr <= j < g.hdr + 8 ==> a[j] == old(a[j])
  {
    ghost var d := a[..];
    StackDoes(d, g, pBegin, pData0, cur, bs, cell);
    pData := pData0 - |cell|;
    Write2(a, g.off + 2 * slot, pData);
    CopySeq(a, pData, cell);
  }

  /** The cells iNew .. iNew + nNew stacked, from the saved bytes or from elsewhere; the test for
      too little room does not fire. */
  method Stack(a: array<byte>, tmp: array<byte>, g: Shape, arr: seq<Ref>, sz: seq<nat>, iNew: nat, nNew: nat,
               ghost bs: seq<seq<byte>>)
    returns (pData: nat, ghost cur: seq<Block>)
    requires a != tmp && g.Ok() && a.Length == g.usable && |sz| == |arr| && iNew + nNew <= |arr|
    requires Saved(tmp[..], arr, sz, Upto(iNew, iNew + nNew), bs)
    requires g.off + 2 * nNew + Total(sz, iNew, iNew + nNew) <= g.usable
    modifies a
    ensures Stacking(a[..], g, g.off + 2 * nNew, pData, cur, bs) && |cur| == nNew == |bs|
    ensures forall j :: g.hdr <= j < g.hdr + 8 ==> a[j] == old(a[j])
  {
    cur, pData := [], g.usable;
    assert Space(g.usable, g.usable, 0, cur, []);
    var i := 0;
    while i < nNew
      invariant i <= nNew == |bs| && |cur| == i && pData == g.usable - Total(sz, iNew, iNew + i)
      invariant Stacking(a[..], g, g.off + 2 * nNew, pData, cur, bs)
      invariant forall j :: g.hdr <= j < g.hdr + 8 ==> a[j] == old(a[j])
    {
      assert SavedAt(tmp[..], arr, sz, Upto(iNew, iNew + nNew), bs, i);
      TotalGrows(sz, iNew, iNew + i + 1, iNew + nNew);
      var c := iNew + i;
      var cell := if arr[c].Here? then tmp[arr[c].pos..arr[c].pos + sz[c]] else arr[c].bytes;
      pData := StackOne(a, g, g.off + 2 * nNew, pData, i, cell, cur, bs);
      cur := cur + [Block(pData, |cell|)];
      i := i + 1;
    }
  }

  /** The cells lo .. hi that were on page d0 are still where they were, in the stored content
      area. */
  ghost predicate Intact(d: seq<byte>, d0: seq<byte>, g: Shape, arr: seq<Ref>, sz: seq<nat>, lo: nat, hi: nat) {
    && lo <= hi <= |arr| == |sz| && g.hdr + 6 < |d| && Get2(d, g.hdr + 5) <= |d|
    && forall c :: lo <= c < hi && arr[c].Here? ==> IntactAt(d, d0, g, arr, sz, c)
  }

  ghost predicate IntactAt(d: seq<byte>, d0: seq<byte>, g: Shape, arr: seq<Ref>, sz: seq<nat>, c: nat)
    requires c < |arr| == |sz| && arr[c].Here? && g.hdr + 6 < |d|
  {
    && Get2(d, g.hdr + 5) <= arr[c].pos && arr[c].pos + sz[c] <= |d|
    && d[arr[c].pos..arr[c].pos + sz[c]] == OldBytes(d0, arr[c], sz[c])
  }

  lemma SavedFrom(d: seq<byte>, tmp: seq<byte>, d0: seq<byte>, g: Shape, arr: seq<Ref>, sz: seq<nat>, lo: nat, hi: nat)
    requires Intact(d, d0, g, arr, sz, lo, hi) && Proper(d0, g, arr, sz, lo, hi) && |tmp| == |d|
    requires forall j :: Get2(d, g.hdr + 5) <= j < |d| ==> tmp[j] == d[j]
    ensures Saved(tmp, arr, sz, Upto(lo, hi), Wanted(d0, arr, sz, Upto(lo, hi)))
  {
    var ix := Upto(lo, hi);
    var bs := Wanted(d0, arr, sz, ix);
    forall i | 0 <= i < |ix| ensures SavedAt(tmp, arr, sz, ix, bs, i) {
      var c := lo + i;
      assert ProperAt(d0, g, arr, sz, c);
      if arr[c].Here? {
        assert IntactAt(d, d0, g, arr, sz, c);
        assert tmp[arr[c].pos..arr[c].pos + sz[c]] == d[arr[c].pos..arr[c].pos + sz[c]];
      }
    }
  }

  /** The header of a page without freeblocks and fragments. */
  lemma Headed(d: seq<byte>, d': seq<byte>, g: Shape, pBegin: nat, pData: nat, cur: seq<Block>, bs: seq<seq<byte>>)
    requires Stacking(d, g, pBegin, pData, cur, bs) && |cur| == |bs|
    requires forall i :: 0 <= i < |bs| ==> g.f(bs[i]) == |bs[i]|
    requires |d'| == |d| && forall j :: g.hdr + 8 <= j < |d| ==> d'[j] == d[j]
    requires Get2(d', g.hdr + 1) == 0 && Get2(d', g.hdr + 3) == |cur| && NotZero(Get2(d', g.hdr + 5)) == pData
    requires d'[g.hdr + 7] == 0
    ensures Good(d', g, pData, 0, cur, [], [])
    ensures (forall i :: 0 <= i < |cur| ==> cur[i].End() <= |d'|) && CellBytes(d', cur) == bs
  {
    forall i | 0 <= i < |cur| ensures CurAt(d', g, cur, bs, i) {
      assert CurAt(d, g, cur, bs, i) && UsedAt(cur, pData, g.usable, i);
      assert d'[cur[i].pos..cur[i].End()] == d[cur[i].pos..cur[i].End()];
    }
    Finished(d', g, pData, 0, cur, [], bs);
  }

  /** The header fields of rebuildPage. */
  method WriteHeader(a: array<byte>, h: nat, n: nat, pData: nat)
    requires h + 8 <= a.Length && n < 65536 && 0 < pData <= 65536
    modifies a
    ensures forall j :: 0 <= j < a.Length && !(h < j < h + 8) ==> a[j] == old(a[j])
    ensures Get2(a[..], h + 1) == 0 && Get2(a[..], h + 3) == n && NotZero(Get2(a[..], h + 5)) == pData && a[h + 7] == 0
  {
    Write2(a, h + 1, 0);
    Write2(a, h + 3, n);
    Write2(a, h + 5, pData);
    Write1(a, h + 7, 0);
  }

  /** rebuildPage: the page is built anew from its cells, those on it saved first. */
  method RebuildPage(a: array<byte>, g: Shape, arr: seq<Ref>, sz: seq<nat>, iNew: nat, nNew: nat, ghost d0: seq<byte>)
    returns (ghost top: nat, ghost cells: seq<Block>)
    requires g.Ok() && a.Length == g.usable && Proper(d0, g, arr, sz, iNew, iNew + nNew)
    requires Intact(a[..], d0, g, arr, sz, iNew, iNew + nNew)
    requires g.off + 2 * nNew + Total(sz, iNew, iNew + nNew) <= g.usable
    modifies a
    ensures Good(a[..], g, top, 0, cells, [], []) && |cells| == nNew
    ensures (forall i :: 0 <= i < |cells| ==> cells[i].End() <= a.Length)
    ensures CellBytes(a[..], cells) == Wanted(d0, arr, sz, Upto(iNew, iNew + nNew))
  {
    ghost var ix := Upto(iNew, iNew + nNew);
    ghost var bs := Wanted(d0, arr, sz, ix);
    var tmp := new byte[a.Length];
    var i := Get2(a[..], g.hdr + 5);
    CopyTo(tmp, i, a, i, a.Length - i);
    SavedFrom(a[..], tmp[..], d0, g, arr, sz, iNew, iNew + nNew);
    var pData;
    pData, cells := Stack(a, tmp, g, arr, sz, iNew, nNew, bs);
    ghost var d := a[..];
    WriteHeader(a, g.hdr, nNew, pData);
    forall j | 0 <= j < |bs| ensures g.f(bs[j]) == |bs[j]| {
      assert ProperAt(d0, g, arr, sz, iNew + j);
    }
    Headed(d, a[..], g, g.off + 2 * nNew, pData, cells, bs);
    top := pData;
  }

  // ----- cells in place

  /** The page has the cells numbered ix, in that order; those it had before are where they were. */
  ghost predicate Laid(d: seq<byte>, d0: seq<byte>, g: Shape, arr: seq<Ref>, sz: seq<nat>, cur: seq<Block>,
                       ix: seq<nat>) {
    && |sz| == |arr| && |cur| == |ix| && forall i :: 0 <= i < |ix| ==> LaidAt(d, d0, g, arr, sz, cur, ix, i)
  }

  ghost predicate LaidAt(d: seq<byte>, d0: seq<byte>, g: Shape, arr: seq<Ref>, sz: seq<nat>, cur: seq<Block>,
                         ix: seq<nat>, i: nat)
    requires i < |ix| == |cur| && |sz| == |arr|
  {
    && ix[i] < |arr| && CellIs(d, cur[i], OldBytes(d0, arr[ix[i]], sz[ix[i]])) && SlotIs(d, g, i, cur[i].pos)
    && (arr[ix[i]].Here? ==> cur[i] == Block(arr[ix[i]].pos, sz[ix[i]]))
  }

  ghost predicate CellIs(d: seq<byte>, b: Block, bytes: seq<byte>) {
    b.End() <= |d| && d[b.pos..b.End()] == bytes
  }

  ghost predicate SlotIs(d: seq<byte>, g: Shape, i: nat, pos: nat) {
    g.off + 2 * i + 1 < |d| && Get2(d, g.off + 2 * i) == pos
  }

  /** Only bytes below the content area, and not in the header, have changed. */
  lemma BelowOnly(d: seq<byte>, d': seq<byte>, g: Shape, lo: nat, hi: nat, top: nat, frag: nat, used: seq<Block>,
                  free: seq<Block>)
    requires Body(d, g, top, frag, used, free) && |d'| == |d| && g.hdr + 8 <= lo && hi <= top
    requires forall j :: 0 <= j < |d| && !(lo <= j < hi) ==> d'[j] == d[j]
    ensures Body(d', g, top, frag, used, free) && Slotted(d, d', g, lo, hi, top, used)
  {
    forall k | 0 <= k < |free| ensures SameHead(d, d', free, k) {
      assert LinkAt(d, free, k) && FreeAt(free, top, g.usable, k);
    }
    ChainFrame(d, d', g.hdr + 1, free);
    forall i | 0 <= i < |used| ensures SameBytes(d, d', used[i]) {
      assert UsedAt(used, top, g.usable, i);
    }
  }

  /** Pointers `at` .. m are n slots further up. */
  ghost predicate MovedUp(d: seq<byte>, d': seq<byte>, g: Shape, at: nat, m: nat, n: nat) {
    forall i, pos :: at <= i < m && SlotIs(d, g, i, pos) ==> SlotIs(d', g, i + n, pos)
  }

  lemma PointersUp(d: seq<byte>, g: Shape, at: nat, m: nat, n: nat)
    requires at <= m && g.off + 2 * (m + n) <= |d|
    ensures MovedUp(d, Copied(d, g.off + 2 * (at + n), d, g.off + 2 * at, 2 * (m - at)), g, at, m, n)
  {
  }

  /** The order of cells after n more at position `at`. */
  ghost function Opened<T>(s: seq<T>, at: nat, x: seq<T>): (r: seq<T>)
    requires at <= |s|
    ensures |r| == |s| + |x|
    ensures forall i :: 0 <= i < |r| ==> r[i] == if i < at then s[i] else if i < at + |x| then x[i - at] else s[i - |x|]
  {
    s[..at] + x + s[at..]
  }

  /** The hole filled: all cells are in order again. */
  lemma HoleFilled(d: seq<byte>, d1: seq<byte>, d2: seq<byte>, d0: seq<byte>, g: Shape, arr: seq<Ref>, sz: seq<nat>,
                   pBegin: nat, cur: seq<Block>, ix: seq<nat>, at: nat, iFirst: nat, nb: seq<Block>)
    requires g.Ok() && Laid(d, d0, g, arr, sz, cur, ix) && at <= |cur| && g.off + 2 * (|cur| + |nb|) <= pBegin <= |d|
    requires Slotted(d, d1, g, g.off + 2 * at, g.off + 2 * (|cur| + |nb|), pBegin, cur)
    requires MovedUp(d, d1, g, at, |cur|, |nb|)
    requires Slotted(d1, d2, g, g.off + 2 * at, g.off + 2 * (at + |nb|), pBegin, cur)
    requires iFirst + |nb| <= |arr| && forall i :: 0 <= i < |nb| ==> NewAt(d2, g, arr, iFirst, at, nb, i)
    ensures Laid(d2, d0, g, arr, sz, Opened(cur, at, nb), Opened(ix, at, Upto(iFirst, iFirst + |nb|)))
  {
    var cur', ix', n := Opened(cur, at, nb), Opened(ix, at, Upto(iFirst, iFirst + |nb|)), |nb|;
    forall i | 0 <= i < |ix'| ensures LaidAt(d2, d0, g, arr, sz, cur', ix', i) {
      if at <= i < at + n {
        assert NewAt(d2, g, arr, iFirst, at, nb, i - at);
        NewOne(d2, d0, g, arr, sz, iFirst, at, nb, cur', ix', i);
      } else {
        var o := if i < at then i else i - n;
        assert LaidAt(d, d0, g, arr, sz, cur, ix, o) && SameBytes(d, d1, cur[o]) && SameBytes(d1, d2, cur[o]);
        SlotOf(d, d1, d2, g, at, |cur|, n, pBegin, cur, o);
        OldOne(d, d2, d0, g, arr, sz, cur, ix, o, cur', ix', i);
      }
    }
  }

  lemma NewOne(d: seq<byte>, d0: seq<byte>, g: Shape, arr: seq<Ref>, sz: seq<nat>, iFirst: nat, at: nat, nb: seq<Block>,
               cur: seq<Block>, ix: seq<nat>, i: nat)
    requires |sz| == |arr| && at <= i < at + |nb| && i < |cur| == |ix| && iFirst + (i - at) < |arr|
    requires cur[i] == nb[i - at] && ix[i] == iFirst + (i - at) && NewAt(d, g, arr, iFirst, at, nb, i - at)
    ensures LaidAt(d, d0, g, arr, sz, cur, ix, i)
  {
  }

  lemma OldOne(d: seq<byte>, d2: seq<byte>, d0: seq<byte>, g: Shape, arr: seq<Ref>, sz: seq<nat>,
               cur: seq<Block>, ix: seq<nat>, o: nat, cur': seq<Block>, ix': seq<nat>, i: nat)
    requires |sz| == |arr| && o < |cur| == |ix| && i < |cur'| == |ix'| && cur'[i] == cur[o] && ix'[i] == ix[o]
    requires LaidAt(d, d0, g, arr, sz, cur, ix, o) && SameBytes(d, d2, cur[o]) && SlotIs(d2, g, i, cur[o].pos)
    ensures LaidAt(d2, d0, g, arr, sz, cur', ix', i)
  {
  }

  /** The pointer of a cell that was there before, after the hole is opened and filled. */
  lemma SlotOf(d: seq<byte>, d1: seq<byte>, d2: seq<byte>, g: Shape, at: nat, m: nat, n: nat, top: nat, cur: seq<Block>,
               o: nat)
    requires g.Ok() && o < m == |cur| && at <= m && SlotIs(d, g, o, cur[o].pos) && MovedUp(d, d1, g, at, m, n)
    requires Slotted(d, d1, g, g.off + 2 * at, g.off + 2 * (m + n), top, cur) && g.off + 2 * (m + n) <= top
    requires Slotted(d1, d2, g, g.off + 2 * at, g.off + 2 * (at + n), top, cur) && top <= |d|
    ensures SlotIs(d2, g, if o < at then o else o + n, cur[o].pos)
  {
    var i := if o < at then o else o + n;
    assert SlotIs(d1, g, i, cur[o].pos);
  }

  /** Pointers `at` and up are moved up by n slots. */
  method OpenHole(a: array<byte>, g: Shape, at: nat, m: nat, n: nat)
    requires at <= m && g.off + 2 * (m + n) <= a.Length
    modifies a
    ensures MovedUp(old(a[..]), a[..], g, at, m, n)
    ensures forall j :: 0 <= j < a.Length && !(g.off + 2 * at <= j < g.off + 2 * (m + n)) ==> a[j] == old(a[j])
  {
    PointersUp(a[..], g, at, m, n);
    CopyTo(a, g.off + 2 * (at + n), a, g.off + 2 * at, 2 * (m - at));
  }

  /** The cells iFirst .. iFirst + n put in at position `at`; if they cannot be, the cells that were
      on the page are still intact. */
  method InsertAt(a: array<byte>, g: Shape, pBegin: nat, pData0: nat, nCell: nat, at: nat, arr: seq<Ref>, iFirst: nat,
                  n: nat, ghost d0: seq<byte>, ghost sz: seq<nat>, ghost frag0: nat, ghost cur0: seq<Block>,
                  ghost ix: seq<nat>, ghost free0: seq<Block>)
    returns (ok: bool, pData: nat, ghost frag: nat, ghost cur: seq<Block>, ghost free: seq<Block>)
    requires Body(a[..], g, pData0, frag0, cur0, free0) && Laid(a[..], d0, g, arr, sz, cur0, ix)
    requires at <= nCell == |cur0| && g.off + 2 * (nCell + n) <= pBegin <= pData0
    requires iFirst + n <= |arr| && forall c :: iFirst <= c < iFirst + n ==> arr[c].There? && 4 <= |arr[c].bytes|
    modifies a
    ensures ok ==> pBegin <= pData && Body(a[..], g, pData, frag, cur, free) && |cur| == nCell + n
    ensures ok ==> Laid(a[..], d0, g, arr, sz, cur, Opened(ix, at, Upto(iFirst, iFirst + n)))
    ensures SameTop(old(a[..]), a[..], g) && forall i :: 0 <= i < |cur0| ==> SameBytes(old(a[..]), a[..], cur0[i])
  {
    ghost var d := a[..];
    OpenHole(a, g, at, nCell, n);
    ghost var d1 := a[..];
    BelowOnly(d, d1, g, g.off + 2 * at, g.off + 2 * (nCell + n), pData0, frag0, cur0, free0);
    assert cur0[..at] + cur0[at..] == cur0;
    ghost var nb;
    ok, pData, frag, nb, free :=
      InsertArray(a, g, pBegin, pData0, at, arr, iFirst, n, frag0, cur0[..at], cur0[at..], free0);
    cur := Opened(cur0, at, nb);
    if ok {
      assert cur == cur0[..at] + nb + cur0[at..];
      HoleFilled(d, d1, a[..], d0, g, arr, sz, pBegin, cur0, ix, at, iFirst, nb);
    }
    forall i | 0 <= i < |cur0| ensures SameBytes(d, a[..], cur0[i]) {
      assert SameBytes(d, d1, cur0[i]) && SameBytes(d1, a[..], cur0[i]);
    }
  }

  // ----- removing cells

  lemma LaidStart(d0: seq<byte>, g: Shape, top: nat, frag: nat, arr: seq<Ref>, sz: seq<nat>, free: seq<Block>)
    requires |sz| == |arr| && Good(d0, g, top, frag, OnPage(arr, sz, 0, |arr|), [], free)
    ensures Laid(d0, d0, g, arr, sz, OnPage(arr, sz, 0, |arr|), Heres(arr, 0, |arr|))
  {
    var cur, ix := OnPage(arr, sz, 0, |arr|), Heres(arr, 0, |arr|);
    forall i | 0 <= i < |ix| ensures LaidAt(d0, d0, g, arr, sz, cur, ix, i) {
      assert CellAt(d0, g, cur, i);
    }
  }

  lemma {:induction false} AtLeastFour(bs: seq<Block>)
    requires forall i :: 0 <= i < |bs| ==> 4 <= bs[i].size
    ensures 4 * |bs| <= Sum(bs)
  {
    if bs == [] {
    } else {
      AtLeastFour(bs[1..]);
    }
  }

  /** Reading as many pointers again past the end of the array stays on the page. */
  lemma RoomToRead(d: seq<byte>, g: Shape, top: nat, frag: nat, cells: seq<Block>, free: seq<Block>)
    requires Good(d, g, top, frag, cells, [], free)
    ensures g.off + 4 * |cells| <= |d|
  {
    assert cells + [] == cells;
    forall i | 0 <= i < |cells| ensures 4 <= cells[i].size {
      assert UsedAt(cells, top, g.usable, i);
    }
    AtLeastFour(cells);
  }

  /** Pointers k .. k + m are at the start of the array. */
  ghost predicate MovedDown(d: seq<byte>, d': seq<byte>, g: Shape, k: nat, m: nat) {
    forall i, pos :: k <= i < k + m && SlotIs(d, g, i, pos) ==> SlotIs(d', g, i - k, pos)
  }

  lemma PointersDown(d: seq<byte>, g: Shape, k: nat, m: nat)
    requires g.off + 2 * (k + m) <= |d|
    ensures MovedDown(d, Copied(d, g.off, d, g.off + 2 * k, 2 * m), g, k, m)
  {
  }

  method CloseUp(a: array<byte>, g: Shape, k: nat, m: nat)
    requires g.off + 2 * (k + m) <= a.Length
    modifies a
    ensures MovedDown(old(a[..]), a[..], g, k, m)
    ensures forall j :: 0 <= j < a.Length && !(g.off <= j < g.off + 2 * m) ==> a[j] == old(a[j])
  {
    PointersDown(a[..], g, k, m);
    CopyTo(a, g.off, a, g.off + 2 * k, 2 * m);
  }

  /** Where the cells of the page are in the array, and that all others are elsewhere. */
  ghost predicate OldRange(arr: seq<Ref>, iOld: nat, iOldEnd: nat) {
    iOld <= iOldEnd <= |arr| && forall c :: 0 <= c < |arr| && !(iOld <= c < iOldEnd) ==> arr[c].There?
  }

  /** The page before anything is done, and its cells from number iNew on. */
  lemma Leaving(d0: seq<byte>, g: Shape, top: nat, frag: nat, arr: seq<Ref>, sz: seq<nat>, iOld: nat, iOldEnd: nat,
                iNew: nat, free: seq<Block>)
    requires |sz| == |arr| && iNew <= |arr| && OldRange(arr, iOld, iOldEnd)
    requires Good(d0, g, top, frag, OnPage(arr, sz, 0, |arr|), [], free)
    ensures Body(d0, g, top, frag, OnPage(arr, sz, 0, |arr|), free)
    ensures Laid(d0, d0, g, arr, sz, OnPage(arr, sz, 0, |arr|), Heres(arr, 0, |arr|))
    ensures if iOld < iNew then
              OnPage(arr, sz, 0, |arr|) == [] + OnPage(arr, sz, iOld, iNew) + OnPage(arr, sz, iNew, |arr|)
            else OnPage(arr, sz, 0, |arr|) == OnPage(arr, sz, iNew, |arr|)
    ensures var n := |Heres(arr, 0, |arr|)| - |Heres(arr, iNew, |arr|)|;
      0 <= n && Heres(arr, 0, |arr|)[n..] == Heres(arr, iNew, |arr|)
  {
    BodyOf(d0, g, top, frag, OnPage(arr, sz, 0, |arr|), [], free);
    LaidStart(d0, g, top, frag, arr, sz, free);
    OnPageSplit(arr, sz, 0, iNew, |arr|);
    HeresSplit(arr, 0, iNew, |arr|);
    if iOld < iNew {
      OnPageSplit(arr, sz, 0, iOld, iNew);
      HeresSplit(arr, 0, iOld, iNew);
      HeresNone(arr, 0, iOld);
    } else {
      HeresNone(arr, 0, iNew);
    }
  }

  /** The cells before iNew leave the page, if there are any. */
  method RemoveStart(a: array<byte>, g: Shape, arr: seq<Ref>, sz: seq<nat>, iOld: nat, iNew: nat, nCell0: nat,
                     ghost top: nat, ghost frag: nat, ghost free: seq<Block>, ghost cur: seq<Block>, ghost ix: seq<nat>,
                     ghost keep: seq<Block>, ghost kept: seq<nat>)
    returns (nCell: nat, ghost top': nat, ghost frag': nat, ghost free': seq<Block>)
    requires |sz| == |arr| && iNew <= |arr| && Good(a[..], g, top, frag, cur, [], free) && nCell0 == |cur|
    requires Body(a[..], g, top, frag, cur, free) && Laid(a[..], a[..], g, arr, sz, cur, ix)
    requires if iOld < iNew then cur == [] + OnPage(arr, sz, iOld, iNew) + keep else cur == keep
    requires |kept| == |keep| && ix[|cur| - |keep|..] == kept
    modifies a
    ensures nCell == |keep| && Body(a[..], g, top', frag', keep, free')
    ensures NotZero(Get2(a[..], g.hdr + 5)) == top' >= top
    ensures Laid(a[..], old(a[..]), g, arr, sz, keep, kept)
  {
    top', frag', free', nCell := top, frag, free, nCell0;
    if iOld < iNew {
      nCell, top', frag', free' := RemoveFirst(a, g, arr, sz, iOld, iNew, nCell0, top, frag, free, cur, ix, keep, kept);
    } else {
      assert ix[0..] == ix;
    }
  }

  /** The cells iOld .. iNew, the first of the page's cells `cur`, leave; `keep` stay. */
  method RemoveFirst(a: array<byte>, g: Shape, arr: seq<Ref>, sz: seq<nat>, iOld: nat, iNew: nat, nCell0: nat,
                     ghost top: nat, ghost frag: nat, ghost free: seq<Block>, ghost cur: seq<Block>, ghost ix: seq<nat>,
                     ghost keep: seq<Block>, ghost kept: seq<nat>)
    returns (nCell: nat, ghost top': nat, ghost frag': nat, ghost free': seq<Block>)
    requires |sz| == |arr| && iOld < iNew <= |arr| && Good(a[..], g, top, frag, cur, [], free) && nCell0 == |cur|
    requires Body(a[..], g, top, frag, cur, free) && Laid(a[..], a[..], g, arr, sz, cur, ix)
    requires cur == [] + OnPage(arr, sz, iOld, iNew) + keep && |kept| == |keep|
    requires ix[|cur| - |keep|..] == kept
    modifies a
    ensures nCell == |keep| && Body(a[..], g, top', frag', keep, free')
    ensures NotZero(Get2(a[..], g.hdr + 5)) == top' >= top
    ensures Laid(a[..], old(a[..]), g, arr, sz, keep, kept)
  {
    ghost var d0 := a[..];
    RoomToRead(d0, g, top, frag, cur, free);
    var nShift;
    nShift, top', frag', free' := FreeArray(a, g, arr, sz, iOld, iNew, top, frag, [], keep, free);
    assert [] + keep == keep;
    CloseStart(a, g, arr, sz, nShift, nCell0, d0, top, top', frag', free', cur, ix, keep, kept);
    nCell := nCell0 - nShift;
  }

  /** The pointers of the cells that stay are moved to the start. */
  method CloseStart(a: array<byte>, g: Shape, ghost arr: seq<Ref>, ghost sz: seq<nat>, nShift: nat, nCell0: nat,
                    ghost d0: seq<byte>, ghost top: nat, ghost top': nat, ghost frag': nat, ghost free': seq<Block>,
                    ghost cur: seq<Block>, ghost ix: seq<nat>, ghost keep: seq<Block>, ghost kept: seq<nat>)
    requires Laid(d0, d0, g, arr, sz, cur, ix) && g.Ok() && nShift + |keep| == |cur| == nCell0 && |kept| == |keep|
    requires cur[nShift..] == keep && ix[nShift..] == kept && g.off + 2 * (nShift + nCell0) <= a.Length
    requires g.off + 2 * nCell0 <= top <= top' && SameElse(d0, a[..], g, top, keep)
    requires Body(a[..], g, top', frag', keep, free')
    modifies a
    ensures Body(a[..], g, top', frag', keep, free') && Laid(a[..], d0, g, arr, sz, keep, kept)
    ensures a.Length >= g.hdr + 8 && forall j :: g.hdr <= j < g.hdr + 8 ==> a[j] == old(a[j])
  {
    ghost var d1 := a[..];
    CloseUp(a, g, nShift, nCell0);
    BelowOnly(d1, a[..], g, g.off, g.off + 2 * nCell0, top', frag', keep, free');
    StartGone(d0, d1, a[..], g, top, arr, sz, cur, ix, nShift, keep, kept);
  }

  lemma StartGone(d0: seq<byte>, d1: seq<byte>, d2: seq<byte>, g: Shape, top: nat, arr: seq<Ref>, sz: seq<nat>,
                  cur: seq<Block>, ix: seq<nat>, k: nat, keep: seq<Block>, kept: seq<nat>)
    requires Laid(d0, d0, g, arr, sz, cur, ix) && k + |keep| == |cur| && |kept| == |keep| && cur[k..] == keep
    requires ix[k..] == kept
    requires g.Ok() && g.off + 2 * |cur| <= top && SameElse(d0, d1, g, top, keep)
    requires forall i :: 0 <= i < |keep| ==> SameBytes(d1, d2, keep[i])
    requires MovedDown(d1, d2, g, k, |cur|)
    ensures Laid(d2, d0, g, arr, sz, keep, kept)
  {
    forall i | 0 <= i < |kept| ensures LaidAt(d2, d0, g, arr, sz, keep, kept, i) {
      assert LaidAt(d0, d0, g, arr, sz, cur, ix, k + i) && SameBytes(d0, d1, keep[i]) && SameBytes(d1, d2, keep[i]);
      assert SlotIs(d1, g, k + i, keep[i].pos);
      OldOne(d0, d2, d0, g, arr, sz, cur, ix, k + i, keep, kept, i);
    }
  }

  /** The last cells of the page leave; `keep` stay where they are. */
  lemma EndGone(d: seq<byte>, d1: seq<byte>, d0: seq<byte>, g: Shape, top: nat, arr: seq<Ref>, sz: seq<nat>,
                cur: seq<Block>, ix: seq<nat>, keep: seq<Block>, kept: seq<nat>)
    requires Laid(d, d0, g, arr, sz, cur, ix) && |keep| == |kept| && keep <= cur && kept <= ix
    requires g.Ok() && g.off + 2 * |cur| <= top && SameElse(d, d1, g, top, keep)
    ensures Laid(d1, d0, g, arr, sz, keep, kept)
  {
    forall i | 0 <= i < |kept| ensures LaidAt(d1, d0, g, arr, sz, keep, kept, i) {
      assert LaidAt(d, d0, g, arr, sz, cur, ix, i) && SameBytes(d, d1, keep[i]);
      OldOne(d, d1, d0, g, arr, sz, cur, ix, i, keep, kept, i);
    }
  }

  lemma LeavingEnd(arr: seq<Ref>, sz: seq<nat>, iOld: nat, iOldEnd: nat, iNew: nat, iNewEnd: nat)
    requires |sz| == |arr| && iNew <= iNewEnd <= |arr| && OldRange(arr, iOld, iOldEnd)
    ensures OnPage(arr, sz, iNew, iNewEnd) <= OnPage(arr, sz, iNew, |arr|)
    ensures Heres(arr, iNew, iNewEnd) <= Heres(arr, iNew, |arr|)
    ensures if iNewEnd < iOldEnd then
              OnPage(arr, sz, iNew, |arr|) == OnPage(arr, sz, iNew, iNewEnd) + OnPage(arr, sz, iNewEnd, iOldEnd) + []
            else Heres(arr, iNew, |arr|) == Heres(arr, iNew, iNewEnd)
  {
    OnPageSplit(arr, sz, iNew, iNewEnd, |arr|);
    HeresSplit(arr, iNew, iNewEnd, |arr|);
    if iNewEnd < iOldEnd {
      OnPageSplit(arr, sz, iNewEnd, iOldEnd, |arr|);
      HeresNone(arr, iOldEnd, |arr|);
    } else {
      HeresNone(arr, iNewEnd, |arr|);
    }
  }

  /** The cells iNewEnd and up leave the page. */
  method RemoveEnd(a: array<byte>, g: Shape, arr: seq<Ref>, sz: seq<nat>, ghost iOld: nat, iOldEnd: nat, iNew: nat,
                   iNewEnd: nat, nCell0: nat, ghost d0: seq<byte>, ghost top: nat, ghost frag: nat,
                   ghost free: seq<Block>)
    returns (nCell: nat, ghost top': nat, ghost frag': nat, ghost free': seq<Block>)
    requires |sz| == |arr| && iNew <= iNewEnd <= |arr| && OldRange(arr, iOld, iOldEnd)
    requires Body(a[..], g, top, frag, OnPage(arr, sz, iNew, |arr|), free) && NotZero(Get2(a[..], g.hdr + 5)) == top
    requires nCell0 == |OnPage(arr, sz, iNew, |arr|)| && g.off + 2 * nCell0 <= top
    requires Laid(a[..], d0, g, arr, sz, OnPage(arr, sz, iNew, |arr|), Heres(arr, iNew, |arr|))
    modifies a
    ensures nCell == |OnPage(arr, sz, iNew, iNewEnd)|
    ensures Body(a[..], g, top', frag', OnPage(arr, sz, iNew, iNewEnd), free')
    ensures NotZero(Get2(a[..], g.hdr + 5)) == top'
    ensures Laid(a[..], d0, g, arr, sz, OnPage(arr, sz, iNew, iNewEnd), Heres(arr, iNew, iNewEnd))
  {
    top', frag', free', nCell := top, frag, free, nCell0;
    LeavingEnd(arr, sz, iOld, iOldEnd, iNew, iNewEnd);
    if iNewEnd < iOldEnd {
      ghost var d, keep := a[..], OnPage(arr, sz, iNew, iNewEnd);
      var nGone;
      nGone, top', frag', free' := FreeArray(a, g, arr, sz, iNewEnd, iOldEnd, top, frag, keep, [], free);
      assert keep + [] == keep;
      nCell := nCell0 - nGone;
      EndGone(d, a[..], d0, g, top, arr, sz, OnPage(arr, sz, iNew, |arr|), Heres(arr, iNew, |arr|), keep,
              Heres(arr, iNew, iNewEnd));
    }
  }

  // ----- editPage

  /** What editPage has in hand: the page has the cells numbered ix, among them all those of lo .. hi
      that were on it at first, and could still be built anew. */
  ghost predicate Editing(d: seq<byte>, d0: seq<byte>, g: Shape, pBegin: nat, pData: nat, frag: nat, arr: seq<Ref>,
                          sz: seq<nat>, lo: nat, hi: nat, cur: seq<Block>, ix: seq<nat>, free: seq<Block>) {
    && pBegin <= pData && Body(d, g, pData, frag, cur, free) && Laid(d, d0, g, arr, sz, cur, ix)
    && Intact(d, d0, g, arr, sz, lo, hi) && AllIn(arr, lo, hi, ix)
  }

  ghost predicate AllIn(arr: seq<Ref>, lo: nat, hi: nat, ix: seq<nat>)
    requires hi <= |arr|
  {
    forall c :: lo <= c < hi ==> HereIn(arr, ix, c)
  }

  ghost predicate HereIn(arr: seq<Ref>, ix: seq<nat>, c: nat)
    requires c < |arr|
  {
    arr[c].Here? ==> c in ix
  }

  /** The cells on the page are intact while their blocks are as they were. */
  lemma StillIntact(d: seq<byte>, d': seq<byte>, d0: seq<byte>, g: Shape, arr: seq<Ref>, sz: seq<nat>, cur: seq<Block>,
                    ix: seq<nat>, lo: nat, hi: nat)
    requires Laid(d, d0, g, arr, sz, cur, ix) && Intact(d, d0, g, arr, sz, lo, hi) && AllIn(arr, lo, hi, ix)
    requires SameTop(d, d', g) && forall i :: 0 <= i < |cur| ==> SameBytes(d, d', cur[i])
    ensures Intact(d', d0, g, arr, sz, lo, hi)
  {
    forall c | lo <= c < hi && arr[c].Here? ensures IntactAt(d', d0, g, arr, sz, c) {
      assert IntactAt(d, d0, g, arr, sz, c) && HereIn(arr, ix, c);
      var i :| 0 <= i < |ix| && ix[i] == c;
      assert LaidAt(d, d0, g, arr, sz, cur, ix, i) && SameBytes(d, d', cur[i]);
    }
  }

  /** After the removals. */
  lemma Removed(d: seq<byte>, d0: seq<byte>, g: Shape, top: nat, frag: nat, arr: seq<Ref>, sz: seq<nat>, lo: nat,
                hi: nat, free: seq<Block>)
    requires |sz| == |arr| && lo <= hi <= |arr| && Body(d, g, top, frag, OnPage(arr, sz, lo, hi), free)
    requires NotZero(Get2(d, g.hdr + 5)) == top && Laid(d, d0, g, arr, sz, OnPage(arr, sz, lo, hi), Heres(arr, lo, hi))
    ensures Intact(d, d0, g, arr, sz, lo, hi) && AllIn(arr, lo, hi, Heres(arr, lo, hi))
  {
    var cur, ix := OnPage(arr, sz, lo, hi), Heres(arr, lo, hi);
    forall c | lo <= c < hi && arr[c].Here? ensures HereIn(arr, ix, c) && IntactAt(d, d0, g, arr, sz, c) {
      HeresHas(arr, lo, hi, c);
      var i :| 0 <= i < |ix| && ix[i] == c;
      assert LaidAt(d, d0, g, arr, sz, cur, ix, i) && UsedAt(cur, top, g.usable, i);
    }
  }

  /** Some cells put in; the page can be built anew whether or not there was space. */
  method EditInsert(a: array<byte>, g: Shape, pBegin: nat, pData0: nat, nCell: nat, at: nat, arr: seq<Ref>, iFirst: nat,
                    n: nat, ghost d0: seq<byte>, ghost sz: seq<nat>, ghost lo: nat, ghost hi: nat, ghost frag0: nat,
                    ghost cur0: seq<Block>, ghost ix: seq<nat>, ghost free0: seq<Block>)
    returns (ok: bool, pData: nat, ghost frag: nat, ghost cur: seq<Block>, ghost free: seq<Block>)
    requires Editing(a[..], d0, g, pBegin, pData0, frag0, arr, sz, lo, hi, cur0, ix, free0)
    requires Proper(d0, g, arr, sz, lo, hi)
    requires at <= nCell == |cur0| && g.off + 2 * (nCell + n) <= pBegin
    requires lo <= iFirst && iFirst + n <= hi && forall c :: iFirst <= c < iFirst + n ==> arr[c].There?
    modifies a
    ensures Intact(a[..], d0, g, arr, sz, lo, hi)
    ensures ok ==>
      Editing(a[..], d0, g, pBegin, pData, frag, arr, sz, lo, hi, cur, Opened(ix, at, Upto(iFirst, iFirst + n)), free)
  {
    ghost var d := a[..];
    forall c | iFirst <= c < iFirst + n ensures 4 <= |arr[c].bytes| {
      assert ProperAt(d0, g, arr, sz, c);
    }
    ok, pData, frag, cur, free :=
      InsertAt(a, g, pBegin, pData0, nCell, at, arr, iFirst, n, d0, sz, frag0, cur0, ix, free0);
    StillIntact(d, a[..], d0, g, arr, sz, cur0, ix, lo, hi);
    StillIn(arr, lo, hi, ix, at, Upto(iFirst, iFirst + n));
  }

  lemma StillIn(arr: seq<Ref>, lo: nat, hi: nat, ix: seq<nat>, at: nat, x: seq<nat>)
    requires hi <= |arr| && AllIn(arr, lo, hi, ix) && at <= |ix|
    ensures AllIn(arr, lo, hi, Opened(ix, at, x))
  {
    var ix' := Opened(ix, at, x);
    forall c | lo <= c < hi && arr[c].Here? ensures HereIn(arr, ix', c) {
      assert HereIn(arr, ix, c);
      var i :| 0 <= i < |ix| && ix[i] == c;
      assert ix'[if i < at then i else i + |x|] == c;
    }
  }

  /** The cells that do not stay leave the page. */
  method Remove(a: array<byte>, g: Shape, arr: seq<Ref>, sz: seq<nat>, iOld: nat, iOldEnd: nat, iNew: nat, iNewEnd: nat,
                nCell0: nat, ghost top: nat, ghost frag: nat, ghost free: seq<Block>)
    returns (nCell: nat, ghost top': nat, ghost frag': nat, ghost free': seq<Block>)
    requires |sz| == |arr| && iNew <= iNewEnd <= |arr| && OldRange(arr, iOld, iOldEnd)
    requires Good(a[..], g, top, frag, OnPage(arr, sz, 0, |arr|), [], free) && nCell0 == |OnPage(arr, sz, 0, |arr|)|
    modifies a
    ensures nCell == |OnPage(arr, sz, iNew, iNewEnd)|
    ensures Body(a[..], g, top', frag', OnPage(arr, sz, iNew, iNewEnd), free')
    ensures NotZero(Get2(a[..], g.hdr + 5)) == top'
    ensures Laid(a[..], old(a[..]), g, arr, sz, OnPage(arr, sz, iNew, iNewEnd), Heres(arr, iNew, iNewEnd))
  {
    ghost var d0, cur, ix := a[..], OnPage(arr, sz, 0, |arr|), Heres(arr, 0, |arr|);
    ghost var keep, kept := OnPage(arr, sz, iNew, |arr|), Heres(arr, iNew, |arr|);
    Leaving(d0, g, top, frag, arr, sz, iOld, iOldEnd, iNew, free);
    nCell, top', frag', free' := RemoveStart(a, g, arr, sz, iOld, iNew, nCell0, top, frag, free, cur, ix, keep, kept);
    nCell, top', frag', free' := RemoveEnd(a, g, arr, sz, iOld, iOldEnd, iNew, iNewEnd, nCell, d0, top', frag', free');
  }

  /** All cells lo .. m, then those of m .. hi that were on the page. */
  ghost function Mix(arr: seq<Ref>, lo: nat, m: nat, hi: nat): (r: seq<nat>)
    requires lo <= m <= hi <= |arr|
  {
    Upto(lo, m) + Heres(arr, m, hi)
  }

  lemma {:induction false} HeresFew(arr: seq<Ref>, lo: nat, hi: nat)
    requires lo <= hi <= |arr|
    ensures |Heres(arr, lo, hi)| <= hi - lo
    decreases hi - lo
  {
    if lo == hi {
    } else {
      HeresFew(arr, lo + 1, hi);
    }
  }

  lemma MixSkip(arr: seq<Ref>, lo: nat, m: nat, c: nat, hi: nat)
    requires lo <= m <= c <= hi <= |arr| && forall x :: m <= x < c ==> arr[x].Here?
    ensures Mix(arr, lo, m, hi) == Mix(arr, lo, c, hi)
  {
    HeresSplit(arr, m, c, hi);
    HeresAll(arr, m, c);
    assert Upto(lo, m) + Upto(m, c) == Upto(lo, c);
  }

  lemma MixPut(arr: seq<Ref>, lo: nat, c: nat, n: nat, hi: nat)
    requires lo <= c && c + n <= hi <= |arr| && forall x :: c <= x < c + n ==> arr[x].There?
    ensures c - lo <= |Mix(arr, lo, c, hi)| && |Mix(arr, lo, c, hi)| + n <= hi - lo
    ensures Opened(Mix(arr, lo, c, hi), c - lo, Upto(c, c + n)) == Mix(arr, lo, c + n, hi)
  {
    HeresSplit(arr, c, c + n, hi);
    HeresNone(arr, c, c + n);
    HeresFew(arr, c + n, hi);
  }

  /** Cell c is one of the overflow cells from number i on. */
  ghost predicate Later(iOld: nat, aiOvfl: seq<nat>, i: nat, c: nat) {
    exists j :: i <= j < |aiOvfl| && iOld + aiOvfl[j] == c
  }

  /** Which cells are in the array as overflow cells of the page: in order, and those only. */
  ghost predicate Overflows(arr: seq<Ref>, iOld: nat, iOldEnd: nat, aiOvfl: seq<nat>)
    requires iOldEnd <= |arr|
  {
    && (forall j, k :: 0 <= j < k < |aiOvfl| ==> aiOvfl[j] < aiOvfl[k])
    && (forall j :: 0 <= j < |aiOvfl| ==> OverflowAt(arr, iOld, iOldEnd, aiOvfl, j))
    && forall c :: iOld <= c < iOldEnd ==> MissingAt(arr, iOld, iOldEnd, aiOvfl, 0, c)
  }

  /** If cell c is one of the page's and is not on it, it is an overflow cell, number i or later. */
  ghost predicate MissingAt(arr: seq<Ref>, iOld: nat, iOldEnd: nat, aiOvfl: seq<nat>, i: nat, c: nat)
    requires c < |arr|
  {
    c < iOldEnd && arr[c].There? ==> Later(iOld, aiOvfl, i, c)
  }

  ghost predicate OverflowAt(arr: seq<Ref>, iOld: nat, iOldEnd: nat, aiOvfl: seq<nat>, j: nat)
    requires iOldEnd <= |arr| && j < |aiOvfl|
  {
    iOld + aiOvfl[j] < iOldEnd && arr[iOld + aiOvfl[j]].There?
  }

  /** Up to m nothing is missing; from there on only overflow cells, number i and later. */
  ghost predicate Pending(arr: seq<Ref>, iOld: nat, iOldEnd: nat, lo: nat, hi: nat, aiOvfl: seq<nat>, i: nat, m: nat)
    requires hi <= |arr|
  {
    && lo <= m <= hi && (forall c :: m <= c < hi ==> MissingAt(arr, iOld, iOldEnd, aiOvfl, i, c))
    && forall j :: i <= j < |aiOvfl| && lo <= iOld + aiOvfl[j] < hi ==> m <= iOld + aiOvfl[j]
  }

  lemma PendingFirst(arr: seq<Ref>, iOld: nat, iOldEnd: nat, lo: nat, hi: nat, aiOvfl: seq<nat>, m: nat)
    requires OldRange(arr, iOld, iOldEnd) && Overflows(arr, iOld, iOldEnd, aiOvfl) && lo <= hi <= |arr|
    requires m == if lo < iOld then (if hi < iOld then hi else iOld) else lo
    ensures Pending(arr, iOld, iOldEnd, lo, hi, aiOvfl, 0, m)
  {
    forall c | m <= c < hi ensures MissingAt(arr, iOld, iOldEnd, aiOvfl, 0, c) {
      assert iOld <= c < iOldEnd ==> MissingAt(arr, iOld, iOldEnd, aiOvfl, 0, c);
    }
  }

  /** Overflow cell i is not one of the cells wanted. */
  lemma PendingSkip(arr: seq<Ref>, iOld: nat, iOldEnd: nat, lo: nat, hi: nat, aiOvfl: seq<nat>, i: nat, m: nat)
    requires hi <= |arr| && Pending(arr, iOld, iOldEnd, lo, hi, aiOvfl, i, m) && i < |aiOvfl|
    requires !(lo <= iOld + aiOvfl[i] < hi)
    ensures Pending(arr, iOld, iOldEnd, lo, hi, aiOvfl, i + 1, m)
  {
    var i' := i + 1;
    forall c | m <= c < hi ensures MissingAt(arr, iOld, iOldEnd, aiOvfl, i', c) {
      assert MissingAt(arr, iOld, iOldEnd, aiOvfl, i, c);
    }
  }

  /** Later overflow cells come later in the array. */
  lemma Ahead(iOld: nat, aiOvfl: seq<nat>, i: nat, c: nat)
    requires (forall j, k :: 0 <= j < k < |aiOvfl| ==> aiOvfl[j] < aiOvfl[k]) && i < |aiOvfl|
    requires Later(iOld, aiOvfl, i, c)
    ensures iOld + aiOvfl[i] <= c && (c == iOld + aiOvfl[i] || Later(iOld, aiOvfl, i + 1, c))
  {
    var j :| i <= j < |aiOvfl| && iOld + aiOvfl[j] == c;
    assert i < j ==> aiOvfl[i] < aiOvfl[j];
  }

  /** Overflow cell i is the next cell missing. */
  lemma PendingNext(arr: seq<Ref>, iOld: nat, iOldEnd: nat, lo: nat, hi: nat, aiOvfl: seq<nat>, i: nat, m: nat)
    requires iOldEnd <= |arr| && Overflows(arr, iOld, iOldEnd, aiOvfl)
    requires hi <= |arr| && Pending(arr, iOld, iOldEnd, lo, hi, aiOvfl, i, m) && i < |aiOvfl|
    requires lo <= iOld + aiOvfl[i] < hi
    ensures var c := iOld + aiOvfl[i];
      m <= c && (forall x :: m <= x < c ==> arr[x].Here?) && Pending(arr, iOld, iOldEnd, lo, hi, aiOvfl, i + 1, c + 1)
  {
    var c := iOld + aiOvfl[i];
    assert OverflowAt(arr, iOld, iOldEnd, aiOvfl, i);
    forall x | m <= x < hi
      ensures (x < c ==> arr[x].Here?) && (x == c || MissingAt(arr, iOld, iOldEnd, aiOvfl, i + 1, x))
    {
      assert MissingAt(arr, iOld, iOldEnd, aiOvfl, i, x);
      if x < iOldEnd && arr[x].There? {
        Ahead(iOld, aiOvfl, i, x);
      }
    }
    forall j | i + 1 <= j < |aiOvfl| ensures c + 1 <= iOld + aiOvfl[j] {
      assert aiOvfl[i] < aiOvfl[j];
    }
  }

  /** No overflow cell is left: only cells after the page's old ones are missing. */
  lemma PendingLast(arr: seq<Ref>, iOld: nat, iOldEnd: nat, lo: nat, hi: nat, aiOvfl: seq<nat>, m: nat)
    requires OldRange(arr, iOld, iOldEnd) && hi <= |arr| && Pending(arr, iOld, iOldEnd, lo, hi, aiOvfl, |aiOvfl|, m)
    ensures var c := lo + |Mix(arr, lo, m, hi)|;
      c <= hi && (forall x :: c <= x < hi ==> arr[x].There?) && Mix(arr, lo, m, hi) == Mix(arr, lo, c, hi)
  {
    var e := if m < hi && hi < iOldEnd then hi else if m < iOldEnd && iOldEnd <= hi then iOldEnd else m;
    forall x | m <= x < e ensures arr[x].Here? {
      assert MissingAt(arr, iOld, iOldEnd, aiOvfl, |aiOvfl|, x);
    }
    MixSkip(arr, lo, m, e, hi);
    HeresNone(arr, e, hi);
  }

  /** What the overflow loop has in hand before overflow cell i. */
  ghost predicate Adding(d: seq<byte>, d0: seq<byte>, g: Shape, pBegin: nat, pData: nat, frag: nat, arr: seq<Ref>,
                         sz: seq<nat>, iOld: nat, iOldEnd: nat, lo: nat, hi: nat, aiOvfl: seq<nat>, i: nat, m: nat,
                         nCell: nat, cur: seq<Block>, free: seq<Block>) {
    && lo <= m <= hi <= |arr| && nCell == |cur| && Pending(arr, iOld, iOldEnd, lo, hi, aiOvfl, i, m)
    && Editing(d, d0, g, pBegin, pData, frag, arr, sz, lo, hi, cur, Mix(arr, lo, m, hi), free)
  }

  /** The cells c .. c + n, the next ones missing. */
  method AddMissing(a: array<byte>, g: Shape, pBegin: nat, pData0: nat, nCell: nat, arr: seq<Ref>, lo: nat, c: nat,
                    n: nat, ghost d0: seq<byte>, ghost sz: seq<nat>, ghost hi: nat, ghost frag0: nat,
                    ghost cur0: seq<Block>, ghost free0: seq<Block>)
    returns (ok: bool, pData: nat, ghost frag: nat, ghost cur: seq<Block>, ghost free: seq<Block>)
    requires lo <= c && c + n <= hi <= |arr| && nCell == |cur0| && pBegin == g.off + 2 * (hi - lo)
    requires Proper(d0, g, arr, sz, lo, hi)
    requires Editing(a[..], d0, g, pBegin, pData0, frag0, arr, sz, lo, hi, cur0, Mix(arr, lo, c, hi), free0)
    requires forall x :: c <= x < c + n ==> arr[x].There?
    modifies a
    ensures Intact(a[..], d0, g, arr, sz, lo, hi)
    ensures ok ==>
      |cur| == nCell + n &&
      Editing(a[..], d0, g, pBegin, pData, frag, arr, sz, lo, hi, cur, Mix(arr, lo, c + n, hi), free)
  {
    MixPut(arr, lo, c, n, hi);
    ok, pData, frag, cur, free :=
      EditInsert(a, g, pBegin, pData0, nCell, c - lo, arr, c, n, d0, sz, lo, hi, frag0, cur0, Mix(arr, lo, c, hi),
                 free0);
  }

  /** One overflow cell: it is put in if it is one of the cells wanted. */
  method AddOverflow(a: array<byte>, g: Shape, pBegin: nat, pData0: nat, nCell0: nat, arr: seq<Ref>, iOld: nat, lo: nat,
                     hi: nat, aiOvfl: seq<nat>, i: nat, ghost d0: seq<byte>, ghost sz: seq<nat>, ghost iOldEnd: nat,
                     ghost m0: nat, ghost frag0: nat, ghost cur0: seq<Block>, ghost free0: seq<Block>)
    returns (ok: bool, pData: nat, nCell: nat, ghost m: nat, ghost frag: nat, ghost cur: seq<Block>,
             ghost free: seq<Block>)
    requires Adding(a[..], d0, g, pBegin, pData0, frag0, arr, sz, iOld, iOldEnd,
                    lo, hi, aiOvfl, i, m0, nCell0, cur0, free0)
    requires pBegin == g.off + 2 * (hi - lo) && Proper(d0, g, arr, sz, lo, hi) && OldRange(arr, iOld, iOldEnd)
    requires Overflows(arr, iOld, iOldEnd, aiOvfl) && i < |aiOvfl|
    modifies a
    ensures Intact(a[..], d0, g, arr, sz, lo, hi)
    ensures ok ==>
      Adding(a[..], d0, g, pBegin, pData, frag, arr, sz, iOld, iOldEnd, lo, hi, aiOvfl, i + 1, m, nCell, cur, free)
  {
    var iCell := iOld + aiOvfl[i] - lo;
    ok, pData, nCell, m, frag, cur, free := true, pData0, nCell0, m0, frag0, cur0, free0;
    if 0 <= iCell < hi - lo {
      ghost var c := iOld + aiOvfl[i];
      PendingNext(arr, iOld, iOldEnd, lo, hi, aiOvfl, i, m0);
      MixSkip(arr, lo, m0, c, hi);
      assert OverflowAt(arr, iOld, iOldEnd, aiOvfl, i);
      m := c + 1;
      nCell := nCell0 + 1;
      ok, pData, frag, cur, free :=
        AddMissing(a, g, pBegin, pData0, nCell0, arr, lo, iCell + lo, 1, d0, sz, hi, frag0, cur0, free0);
    } else {
      PendingSkip(arr, iOld, iOldEnd, lo, hi, aiOvfl, i, m0);
    }
  }

  /** The overflow cells. */
  method AddOverflows(a: array<byte>, g: Shape, pBegin: nat, pData0: nat, nCell0: nat, arr: seq<Ref>, iOld: nat,
                      lo: nat, hi: nat, aiOvfl: seq<nat>, ghost d0: seq<byte>, ghost sz: seq<nat>, ghost iOldEnd: nat,
                      ghost m0: nat, ghost frag0: nat, ghost cur0: seq<Block>, ghost free0: seq<Block>)
    returns (ok: bool, pData: nat, nCell: nat, ghost m: nat, ghost frag: nat, ghost cur: seq<Block>,
             ghost free: seq<Block>)
    requires Adding(a[..], d0, g, pBegin, pData0, frag0, arr, sz, iOld, iOldEnd,
                    lo, hi, aiOvfl, 0, m0, nCell0, cur0, free0)
    requires pBegin == g.off + 2 * (hi - lo) && Proper(d0, g, arr, sz, lo, hi) && OldRange(arr, iOld, iOldEnd)
    requires Overflows(arr, iOld, iOldEnd, aiOvfl)
    modifies a
    ensures Intact(a[..], d0, g, arr, sz, lo, hi)
    ensures ok ==>
      Adding(a[..], d0, g, pBegin, pData, frag, arr, sz, iOld, iOldEnd, lo, hi, aiOvfl, |aiOvfl|, m, nCell, cur, free)
  {
    ok, pData, nCell, m, frag, cur, free := true, pData0, nCell0, m0, frag0, cur0, free0;
    var i := 0;
    while i < |aiOvfl| && ok
      invariant i <= |aiOvfl| && Intact(a[..], d0, g, arr, sz, lo, hi)
      invariant ok ==>
        Adding(a[..], d0, g, pBegin, pData, frag, arr, sz, iOld, iOldEnd, lo, hi, aiOvfl, i, m, nCell, cur, free)
    {
      ok, pData, nCell, m, frag, cur, free :=
        AddOverflow(a, g, pBegin, pData, nCell, arr, iOld, lo, hi, aiOvfl, i, d0, sz, iOldEnd, m, frag, cur, free);
      i := i + 1;
    }
  }

  /** The cells after the nCell that are in place. */
  method AddLast(a: array<byte>, g: Shape, pBegin: nat, pData0: nat, nCell: nat, arr: seq<Ref>, lo: nat, hi: nat,
                 ghost d0: seq<byte>, ghost sz: seq<nat>, ghost frag0: nat, ghost cur0: seq<Block>,
                 ghost free0: seq<Block>)
    returns (ok: bool, pData: nat, ghost frag: nat, ghost cur: seq<Block>, ghost free: seq<Block>)
    requires lo + nCell <= hi <= |arr| && nCell == |cur0| && pBegin == g.off + 2 * (hi - lo)
    requires Proper(d0, g, arr, sz, lo, hi)
    requires Editing(a[..], d0, g, pBegin, pData0, frag0, arr, sz, lo, hi, cur0, Mix(arr, lo, lo + nCell, hi), free0)
    requires forall x :: lo + nCell <= x < hi ==> arr[x].There?
    modifies a
    ensures Intact(a[..], d0, g, arr, sz, lo, hi)
    ensures ok ==> Editing(a[..], d0, g, pBegin, pData, frag, arr, sz, lo, hi, cur, Upto(lo, hi), free)
  {
    ok, pData, frag, cur, free :=
      AddMissing(a, g, pBegin, pData0, nCell, arr, lo, lo + nCell, hi - lo - nCell, d0, sz, hi, frag0, cur0, free0);
    assert Mix(arr, lo, hi, hi) == Upto(lo, hi);
  }

  /** The overflow cells, and then the cells that come after all that were on the page. */
  method AddRest(a: array<byte>, g: Shape, pBegin: nat, pData0: nat, nCell0: nat, arr: seq<Ref>, iOld: nat, lo: nat,
                 hi: nat, aiOvfl: seq<nat>, ghost d0: seq<byte>, ghost sz: seq<nat>, ghost iOldEnd: nat, ghost m0: nat,
                 ghost frag0: nat, ghost cur0: seq<Block>, ghost free0: seq<Block>)
    returns (ok: bool, pData: nat, ghost frag: nat, ghost cur: seq<Block>, ghost free: seq<Block>)
    requires Adding(a[..], d0, g, pBegin, pData0, frag0, arr, sz, iOld, iOldEnd,
                    lo, hi, aiOvfl, 0, m0, nCell0, cur0, free0)
    requires pBegin == g.off + 2 * (hi - lo) && Proper(d0, g, arr, sz, lo, hi) && OldRange(arr, iOld, iOldEnd)
    requires Overflows(arr, iOld, iOldEnd, aiOvfl)
    modifies a
    ensures Intact(a[..], d0, g, arr, sz, lo, hi)
    ensures ok ==> Editing(a[..], d0, g, pBegin, pData, frag, arr, sz, lo, hi, cur, Upto(lo, hi), free)
  {
    var nCell;
    ghost var m;
    ok, pData, nCell, m, frag, cur, free :=
      AddOverflows(a, g, pBegin, pData0, nCell0, arr, iOld, lo, hi, aiOvfl, d0, sz, iOldEnd, m0, frag0, cur0, free0);
    if ok {
      PendingLast(arr, iOld, iOldEnd, lo, hi, aiOvfl, m);
      ok, pData, frag, cur, free := AddLast(a, g, pBegin, pData, nCell, arr, lo, hi, d0, sz, frag, cur, free);
    }
  }

  /** All that is missing: the cells before those that were on the page, the overflow cells, the
      cells after. */
  method AddAll(a: array<byte>, g: Shape, pBegin: nat, pData0: nat, nCell0: nat, arr: seq<Ref>, iOld: nat, lo: nat,
                hi: nat, aiOvfl: seq<nat>, ghost d0: seq<byte>, ghost sz: seq<nat>, ghost iOldEnd: nat,
                ghost frag0: nat, ghost cur0: seq<Block>, ghost free0: seq<Block>)
    returns (ok: bool, pData: nat, ghost frag: nat, ghost cur: seq<Block>, ghost free: seq<Block>)
    requires lo <= hi <= |arr| && nCell0 == |cur0| && pBegin == g.off + 2 * (hi - lo) && Proper(d0, g, arr, sz, lo, hi)
    requires Editing(a[..], d0, g, pBegin, pData0, frag0, arr, sz, lo, hi, cur0, Mix(arr, lo, lo, hi), free0)
    requires OldRange(arr, iOld, iOldEnd) && Overflows(arr, iOld, iOldEnd, aiOvfl)
    modifies a
    ensures Intact(a[..], d0, g, arr, sz, lo, hi)
    ensures ok ==> Editing(a[..], d0, g, pBegin, pData, frag, arr, sz, lo, hi, cur, Upto(lo, hi), free)
  {
    ghost var m := lo;
    var nCell := nCell0;
    pData, frag, cur, free := pData0, frag0, cur0, free0;
    if lo < iOld {
      var nAdd := if hi - lo < iOld - lo then hi - lo else iOld - lo;
      ok, pData, frag, cur, free :=
        AddMissing(a, g, pBegin, pData0, nCell0, arr, lo, lo, nAdd, d0, sz, hi, frag0, cur0, free0);
      if !ok {
        return;
      }
      nCell, m := nCell0 + nAdd, lo + nAdd;
    }
    PendingFirst(arr, iOld, iOldEnd, lo, hi, aiOvfl, m);
    ok, pData, frag, cur, free :=
      AddRest(a, g, pBegin, pData, nCell, arr, iOld, lo, hi, aiOvfl, d0, sz, iOldEnd, m, frag, cur, free);
  }

  /** The cells that do not stay leave the page, and the page can be built anew. */
  method StartEdit(a: array<byte>, g: Shape, arr: seq<Ref>, sz: seq<nat>, iOld: nat, iOldEnd: nat, lo: nat, hi: nat,
                   nCell0: nat, ghost top: nat, ghost frag: nat, ghost free: seq<Block>)
    returns (nCell: nat, pData: nat, ghost frag': nat, ghost cur: seq<Block>, ghost free': seq<Block>)
    requires |sz| == |arr| && lo <= hi <= |arr| && OldRange(arr, iOld, iOldEnd)
    requires Good(a[..], g, top, frag, OnPage(arr, sz, 0, |arr|), [], free) && nCell0 == |OnPage(arr, sz, 0, |arr|)|
    modifies a
    ensures nCell == |cur|
    ensures Editing(a[..], old(a[..]), g, 0, pData, frag', arr, sz, lo, hi, cur, Mix(arr, lo, lo, hi), free')
  {
    ghost var d0 := a[..];
    ghost var top';
    nCell, top', frag', free' := Remove(a, g, arr, sz, iOld, iOldEnd, lo, hi, nCell0, top, frag, free);
    Removed(a[..], d0, g, top', frag', arr, sz, lo, hi, free');
    cur := OnPage(arr, sz, lo, hi);
    assert Mix(arr, lo, lo, hi) == Heres(arr, lo, hi);
    pData := NotZero(Get2(a[..], g.hdr + 5));
  }

  /** All the work in place; if space runs out, the page can still be built anew. */
  method InPlace(a: array<byte>, g: Shape, arr: seq<Ref>, sz: seq<nat>, iOld: nat, iOldEnd: nat, iNew: nat, nNew: nat,
                 nCell0: nat, aiOvfl: seq<nat>, ghost top: nat, ghost frag: nat, ghost free: seq<Block>)
    returns (ok: bool, pData: nat, ghost frag': nat, ghost cur: seq<Block>, ghost free': seq<Block>)
    requires Proper(a[..], g, arr, sz, iNew, iNew + nNew) && OldRange(arr, iOld, iOldEnd)
    requires Overflows(arr, iOld, iOldEnd, aiOvfl)
    requires Good(a[..], g, top, frag, OnPage(arr, sz, 0, |arr|), [], free) && nCell0 == |OnPage(arr, sz, 0, |arr|)|
    modifies a
    ensures Intact(a[..], old(a[..]), g, arr, sz, iNew, iNew + nNew)
    ensures var pBegin := g.off + 2 * nNew;
      ok ==> Editing(a[..], old(a[..]), g, pBegin, pData, frag',
                     arr, sz, iNew, iNew + nNew, cur, Upto(iNew, iNew + nNew), free')
  {
    ghost var d0 := a[..];
    var iNewEnd, pBegin := iNew + nNew, g.off + 2 * nNew;
    var nCell;
    nCell, pData, frag', cur, free' := StartEdit(a, g, arr, sz, iOld, iOldEnd, iNew, iNewEnd, nCell0, top, frag, free);
    ok := false;
    if pBegin <= pData {
      ok, pData, frag', cur, free' :=
        AddAll(a, g, pBegin, pData, nCell, arr, iOld, iNew, iNewEnd, aiOvfl, d0, sz, iOldEnd, frag', cur, free');
    }
  }

  /** With the count and the content start written, the page is well formed. */
  lemma Edited(d: seq<byte>, d': seq<byte>, d0: seq<byte>, g: Shape, top: nat, frag: nat, arr: seq<Ref>, sz: seq<nat>,
               cur: seq<Block>, lo: nat, hi: nat, free: seq<Block>)
    requires Proper(d0, g, arr, sz, lo, hi) && Body(d, g, top, frag, cur, free)
    requires Laid(d, d0, g, arr, sz, cur, Upto(lo, hi))
    requires g.off + 2 * (hi - lo) <= top
    requires |d'| == |d| && (forall j :: 0 <= j < |d| && !(g.hdr + 3 <= j < g.hdr + 7) ==> d'[j] == d[j])
    requires Get2(d', g.hdr + 3) == hi - lo && NotZero(Get2(d', g.hdr + 5)) == top
    ensures Good(d', g, top, frag, cur, [], free) && (forall i :: 0 <= i < |cur| ==> cur[i].End() <= |d'|)
    ensures CellBytes(d', cur) == Wanted(d0, arr, sz, Upto(lo, hi))
  {
    var ix := Upto(lo, hi);
    var bs := Wanted(d0, arr, sz, ix);
    forall k | 0 <= k < |free| ensures SameHead(d, d', free, k) {
      assert LinkAt(d, free, k) && FreeAt(free, top, g.usable, k);
    }
    ChainFrame(d, d', g.hdr + 1, free);
    forall i | 0 <= i < |cur| ensures CurAt(d', g, cur, bs, i) && g.f(bs[i]) == |bs[i]| {
      assert LaidAt(d, d0, g, arr, sz, cur, ix, i) && UsedAt(cur, top, g.usable, i) && ProperAt(d0, g, arr, sz, ix[i]);
      assert d'[cur[i].pos..cur[i].End()] == d[cur[i].pos..cur[i].End()];
    }
    Finished(d', g, top, frag, cur, free, bs);
  }

  /** editPage: the page has the cells iNew .. iNew + nNew of the array, in order, and each has the
      bytes that it had before, on this page or elsewhere. */
  method Edit(a: array<byte>, g: Shape, arr: seq<Ref>, sz: seq<nat>, iOld: nat, iNew: nat, nNew: nat, nCell: nat,
              aiOvfl: seq<nat>, ghost top: nat, ghost frag: nat, ghost free: seq<Block>)
    returns (ghost top': nat, ghost frag': nat, ghost cells: seq<Block>, ghost free': seq<Block>)
    requires Proper(a[..], g, arr, sz, iNew, iNew + nNew) && iOld + nCell + |aiOvfl| <= |arr|
    requires OldRange(arr, iOld, iOld + nCell + |aiOvfl|) && Overflows(arr, iOld, iOld + nCell + |aiOvfl|, aiOvfl)
    requires Good(a[..], g, top, frag, OnPage(arr, sz, 0, |arr|), [], free) && nCell == |OnPage(arr, sz, 0, |arr|)|
    requires g.off + 2 * nNew + Total(sz, iNew, iNew + nNew) <= g.usable
    modifies a
    ensures Good(a[..], g, top', frag', cells, [], free') && |cells| == nNew
    ensures (forall i :: 0 <= i < |cells| ==> cells[i].End() <= a.Length)
    ensures CellBytes(a[..], cells) == Wanted(old(a[..]), arr, sz, Upto(iNew, iNew + nNew))
  {
    ghost var d0 := a[..];
    var iOldEnd := iOld + nCell + |aiOvfl|;
    var ok, pData;
    ok, pData, frag', cells, free' := InPlace(a, g, arr, sz, iOld, iOldEnd, iNew, nNew, nCell, aiOvfl, top, frag, free);
    if ok {
      ghost var d := a[..];
      WriteCounts(a, g.hdr, nNew, pData);
      top' := pData;
      Edited(d, a[..], d0, g, pData, frag', arr, sz, cells, iNew, iNew + nNew, free');
    } else {
      top', cells := RebuildPage(a, g, arr, sz, iNew, nNew, d0);
      frag', free' := 0, [];
    }
  }

  method WriteCounts(a: array<byte>, h: nat, n: nat, pData: nat)
    requires h + 8 <= a.Length && n < 65536 && 0 < pData <= 65536
    modifies a
    ensures forall j :: 0 <= j < a.Length && !(h + 3 <= j < h + 7) ==> a[j] == old(a[j])
    ensures Get2(a[..], h + 3) == n && NotZero(Get2(a[..], h + 5)) == pData
  {
    Write2(a, h + 3, n);
    Write2(a, h + 5, pData);
  }
}
