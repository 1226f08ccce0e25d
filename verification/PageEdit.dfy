/** editPage: a sibling page gets the cells that balancing has assigned to it, in place.

    The cells are known through pointers: into the page itself, where the ones that stay are not
    moved, or to somewhere else.  Space of cells that go is given back, cells that come are put
    where there is space, and if that fails the page is built anew. */
module PageEdit {
  import opened Bytes
  import opened Blocks
  import opened PageLayout
  import opened PageBytes
  import opened PageImage
  import opened PageSpace

  // ----- the array of cells

  /** A cell pointer: to a position on the page, or to bytes elsewhere. */
  datatype Ref = Here(pos: nat) | There(bytes: seq<byte>)

  function Upto(lo: nat, hi: nat): (r: seq<nat>)
    requires lo <= hi
    ensures |r| == hi - lo && forall i :: 0 <= i < |r| ==> r[i] == lo + i
  {
    seq(hi - lo, i requires 0 <= i < hi - lo => lo + i)
  }

  /** The numbers of the cells lo .. hi that are on the page. */
  ghost function Heres(arr: seq<Ref>, lo: nat, hi: nat): (r: seq<nat>)
    requires lo <= hi <= |arr|
    ensures forall i :: 0 <= i < |r| ==> lo <= r[i] < hi && arr[r[i]].Here?
    decreases hi - lo
  {
    if lo == hi then [] else (if arr[lo].Here? then [lo] else []) + Heres(arr, lo + 1, hi)
  }

  lemma {:induction false} HeresSplit(arr: seq<Ref>, lo: nat, m: nat, hi: nat)
    requires lo <= m <= hi <= |arr|
    ensures Heres(arr, lo, hi) == Heres(arr, lo, m) + Heres(arr, m, hi)
    decreases m - lo
  {
    if lo == m {
    } else {
      HeresSplit(arr, lo + 1, m, hi);
    }
  }

  lemma {:induction false} HeresNone(arr: seq<Ref>, lo: nat, hi: nat)
    requires lo <= hi <= |arr| && forall c :: lo <= c < hi ==> arr[c].There?
    ensures Heres(arr, lo, hi) == []
    decreases hi - lo
  {
    if lo == hi {
    } else {
      HeresNone(arr, lo + 1, hi);
    }
  }

  lemma {:induction false} HeresAll(arr: seq<Ref>, lo: nat, hi: nat)
    requires lo <= hi <= |arr| && forall c :: lo <= c < hi ==> arr[c].Here?
    ensures Heres(arr, lo, hi) == Upto(lo, hi)
    decreases hi - lo
  {
    if lo == hi {
    } else {
      HeresAll(arr, lo + 1, hi);
    }
  }

  lemma {:induction false} HeresHas(arr: seq<Ref>, lo: nat, hi: nat, c: nat)
    requires lo <= c < hi <= |arr| && arr[c].Here?
    ensures c in Heres(arr, lo, hi)
    decreases c
  {
    HeresSplit(arr, lo, c, hi);
    assert Heres(arr, c, hi)[0] == c;
  }

  /** The blocks of cells on the page. */
  ghost function BlocksOf(arr: seq<Ref>, sz: seq<nat>, ix: seq<nat>): (r: seq<Block>)
    requires |sz| == |arr| && forall i :: 0 <= i < |ix| ==> ix[i] < |arr| && arr[ix[i]].Here?
    ensures |r| == |ix| && forall i :: 0 <= i < |ix| ==> r[i] == Block(arr[ix[i]].pos, sz[ix[i]])
  {
    seq(|ix|, i requires 0 <= i < |ix| => Block(arr[ix[i]].pos, sz[ix[i]]))
  }

  ghost function OnPage(arr: seq<Ref>, sz: seq<nat>, lo: nat, hi: nat): (r: seq<Block>)
    requires |sz| == |arr| && lo <= hi <= |arr|
    ensures |r| == |Heres(arr, lo, hi)|
  {
    BlocksOf(arr, sz, Heres(arr, lo, hi))
  }

  lemma OnPageSplit(arr: seq<Ref>, sz: seq<nat>, lo: nat, m: nat, hi: nat)
    requires |sz| == |arr| && lo <= m <= hi <= |arr|
    ensures OnPage(arr, sz, lo, hi) == OnPage(arr, sz, lo, m) + OnPage(arr, sz, m, hi)
  {
    HeresSplit(arr, lo, m, hi);
  }

  lemma OnPageNext(arr: seq<Ref>, sz: seq<nat>, lo: nat, hi: nat)
    requires |sz| == |arr| && lo < hi <= |arr|
    ensures OnPage(arr, sz, lo, hi) ==
      if arr[lo].Here? then [Block(arr[lo].pos, sz[lo])] + OnPage(arr, sz, lo + 1, hi) else OnPage(arr, sz, lo + 1, hi)
  {
    assert arr[lo].There? ==> Heres(arr, lo, hi) == Heres(arr, lo + 1, hi);
  }

  // ----- layouts with blocks listed in another order

  /** Block i is listed last. */
  lemma MovedLast(usable: nat, top: nat, frag: nat, used: seq<Block>, free: seq<Block>, i: nat)
    requires Space(usable, top, frag, used, free) && i < |used|
    ensures Space(usable, top, frag, Without(used, i) + [used[i]], free)
  {
    var used' := Without(used, i) + [used[i]];
    var n := |used| - 1;
    SumWithout(used, i);
    SumAppend(Without(used, i), [used[i]]);
    SumOne(used[i]);
    forall j | 0 <= j < |used'| ensures UsedAt(used', top, usable, j) {
      assert UsedAt(used, top, usable, if j == n then i else if j < i then j else j + 1);
    }
    forall j, h | 0 <= j < h < |used'| ensures ApartAt(used', j, h) {
      var oj := if j < i then j else j + 1;
      if h == n {
        assert if oj < i then ApartAt(used, oj, i) else ApartAt(used, i, oj);
      } else {
        assert ApartAt(used, oj, if h < i then h else h + 1);
      }
    }
    forall j, k | 0 <= j < |used'| && 0 <= k < |free| ensures CrossAt(used', free, j, k) {
      assert CrossAt(used, free, if j == n then i else if j < i then j else j + 1, k);
    }
  }

  /** Two blocks that touch are one block. */
  lemma Touching(usable: nat, top: nat, frag: nat, v: seq<Block>, r: Block, b: Block, free: seq<Block>)
    requires Space(usable, top, frag, v + [r] + [b], free) && b.End() == r.pos
    ensures Space(usable, top, frag, v + [Block(b.pos, b.size + r.size)], free)
  {
    var used, x := v + [r] + [b], Block(b.pos, b.size + r.size);
    var used', n := v + [x], |v|;
    SumAppend(v + [r], [b]);
    SumAppend(v, [r]);
    SumAppend(v, [x]);
    SumOne(r);
    SumOne(b);
    SumOne(x);
    assert UsedAt(used, top, usable, n) && UsedAt(used, top, usable, n + 1);
    forall j | 0 <= j < |used'| ensures UsedAt(used', top, usable, j) {
      assert j < n ==> UsedAt(used, top, usable, j);
    }
    forall j, h | 0 <= j < h < |used'| ensures ApartAt(used', j, h) {
      if h == n {
        assert ApartAt(used, j, n) && ApartAt(used, j, n + 1) && UsedAt(used, top, usable, j);
      } else {
        assert ApartAt(used, j, h);
      }
    }
    forall j, k | 0 <= j < |used'| && 0 <= k < |free| ensures CrossAt(used', free, j, k) {
      if j == n {
        assert CrossAt(used, free, n, k) && CrossAt(used, free, n + 1, k) && FreeAt(free, top, usable, k);
      } else {
        assert CrossAt(used, free, j, k);
      }
    }
  }

  // ----- pageFreeArray

  /** Changes that leave some blocks alone, one after the other. */
  lemma ElseOn(d0: seq<byte>, d1: seq<byte>, d2: seq<byte>, g: Shape, top0: nat, top1: nat,
               p: seq<Block>, x: seq<Block>, s: seq<Block>, y: seq<Block>)
    requires SameElse(d0, d1, g, top0, p + s) && top0 <= top1 && SameElse(d1, d2, g, top1, p + x + s + y)
    ensures SameElse(d0, d2, g, top0, p + s)
  {
    var k, w := p + s, p + x + s + y;
    forall i | 0 <= i < |k| ensures SameBytes(d0, d2, k[i]) {
      assert SameBytes(d0, d1, k[i]);
      var j := if i < |p| then i else i + |x|;
      assert w[j] == k[i] && SameBytes(d1, d2, w[j]);
    }
  }

  /** The blocks still in use: p and s stay, `x` is to be freed, and so is the run, if there is one. */
  ghost function Listed(p: seq<Block>, x: seq<Block>, s: seq<Block>, pFree: nat, szFree: nat): seq<Block> {
    p + x + s + if pFree == 0 then [] else [Block(pFree, szFree)]
  }

  /** The next cell to be freed, out of its place in the list. */
  lemma NextOut(usable: nat, top: nat, frag: nat, p: seq<Block>, b: Block, x: seq<Block>, s: seq<Block>,
                run: seq<Block>, free: seq<Block>)
    requires Space(usable, top, frag, p + ([b] + x) + s + run, free)
    ensures Space(usable, top, frag, p + x + s + run + [b], free)
  {
    var used := p + ([b] + x) + s + run;
    MovedLast(usable, top, frag, used, free, |p|);
    assert Without(used, |p|) == p + x + s + run && used[|p|] == b;
  }

  /** What pageFreeArray has in hand: the space, the stored content start, and what it has left
      alone since the page was ds. */
  ghost predicate Freeing(d: seq<byte>, ds: seq<byte>, g: Shape, top0: nat, top: nat, frag: nat,
                          p: seq<Block>, x: seq<Block>, s: seq<Block>, pFree: nat, szFree: nat, free: seq<Block>) {
    && Body(d, g, top, frag, Listed(p, x, s, pFree, szFree), free)
    && g.hdr + 6 < |d| && NotZero(Get2(d, g.hdr + 5)) == top >= top0
    && SameElse(ds, d, g, top0, p + s)
  }

  /** The run so far is freed. */
  method FreeRun(a: array<byte>, g: Shape, pFree: nat, szFree: nat, ghost ds: seq<byte>, ghost top0: nat,
                 ghost top: nat, ghost frag: nat, ghost p: seq<Block>, ghost x: seq<Block>, ghost s: seq<Block>,
                 ghost free: seq<Block>, ghost y: seq<Block>)
    returns (ghost top': nat, ghost frag': nat, ghost free': seq<Block>)
    requires Body(a[..], g, top, frag, p + x + s + [Block(pFree, szFree)] + y, free)
    requires g.hdr + 6 < a.Length && NotZero(Get2(a[..], g.hdr + 5)) == top >= top0
    requires SameElse(ds, a[..], g, top0, p + s)
    modifies a
    ensures Body(a[..], g, top', frag', p + x + s + y, free')
    ensures NotZero(Get2(a[..], g.hdr + 5)) == top' >= top0 && SameElse(ds, a[..], g, top0, p + s)
  {
    ghost var d, v := a[..], p + x + s;
    ghost var used := v + [Block(pFree, szFree)] + y;
    top', frag', free' := FreeBlock(a, g, pFree, szFree, top, frag, used, free, |v|);
    assert Without(used, |v|) == p + x + s + y;
    ElseOn(ds, d, a[..], g, top0, top, p, x, s, y);
  }

  /** The cell at pc, listed next: it makes the run longer, or starts a new one. */
  method FreeNext(a: array<byte>, g: Shape, pc: nat, size: nat, pFree0: nat, szFree0: nat, ghost ds: seq<byte>,
                  ghost top0: nat, ghost top: nat, ghost frag: nat, ghost p: seq<Block>, ghost x: seq<Block>,
                  ghost s: seq<Block>, ghost free: seq<Block>)
    returns (pFree: nat, szFree: nat, ghost top': nat, ghost frag': nat, ghost free': seq<Block>)
    requires Freeing(a[..], ds, g, top0, top, frag, p, [Block(pc, size)] + x, s, pFree0, szFree0, free)
    modifies a
    ensures Freeing(a[..], ds, g, top0, top', frag', p, x, s, pFree, szFree, free') && pFree > 0
  {
    ghost var b, run := Block(pc, size), if pFree0 == 0 then [] else [Block(pFree0, szFree0)];
    NextOut(g.usable, top, frag, p, b, x, s, run, free);
    top', frag', free' := top, frag, free;
    ghost var v := p + x + s;
    assert Body(a[..], g, top, frag, v + run + [b], free);
    assert UsedAt(v + run + [b], top, g.usable, |v + run|);
    pFree := pc;
    if pFree0 != pc + size {
      if pFree0 != 0 {
        top', frag', free' := FreeRun(a, g, pFree0, szFree0, ds, top0, top, frag, p, x, s, free, [b]);
      } else {
        assert v + run + [b] == v + [b];
      }
      szFree := size;
    } else {
      Touching(g.usable, top, frag, v, Block(pFree0, szFree0), b, free);
      szFree := szFree0 + size;
    }
  }

  /** One cell of the array: `x` lists the cells to be freed from it on, `rest` those after it. */
  method FreeStep(a: array<byte>, g: Shape, r: Ref, size: nat, pFree0: nat, szFree0: nat, nRet0: nat,
                  ghost ds: seq<byte>, ghost top0: nat, ghost top: nat, ghost frag: nat, ghost p: seq<Block>,
                  ghost x: seq<Block>, ghost rest: seq<Block>, ghost s: seq<Block>, ghost free: seq<Block>)
    returns (pFree: nat, szFree: nat, nRet: nat, ghost top': nat, ghost frag': nat, ghost free': seq<Block>)
    requires x == if r.Here? then [Block(r.pos, size)] + rest else rest
    requires Freeing(a[..], ds, g, top0, top, frag, p, x, s, pFree0, szFree0, free)
    modifies a
    ensures Freeing(a[..], ds, g, top0, top', frag', p, rest, s, pFree, szFree, free') && nRet + |rest| == nRet0 + |x|
  {
    pFree, szFree, nRet, top', frag', free' := pFree0, szFree0, nRet0, top, frag, free;
    if r.Here? {
      pFree, szFree, top', frag', free' :=
        FreeNext(a, g, r.pos, size, pFree0, szFree0, ds, top0, top, frag, p, rest, s, free);
      nRet := nRet0 + 1;
    }
  }

  /** The cells iFirst .. iEnd that are on the page, up to the last run of them. */
  method FreeCells(a: array<byte>, g: Shape, arr: seq<Ref>, sz: seq<nat>, iFirst: nat, iEnd: nat, ghost ds: seq<byte>,
                   ghost top: nat, ghost frag: nat, ghost p: seq<Block>, ghost s: seq<Block>, ghost free: seq<Block>)
    returns (nRet: nat, pFree: nat, szFree: nat, ghost top': nat, ghost frag': nat, ghost free': seq<Block>)
    requires |sz| == |arr| && iFirst <= iEnd <= |arr|
    requires Freeing(a[..], ds, g, top, top, frag, p, OnPage(arr, sz, iFirst, iEnd), s, 0, 0, free)
    modifies a
    ensures nRet == |OnPage(arr, sz, iFirst, iEnd)|
    ensures Freeing(a[..], ds, g, top, top', frag', p, [], s, pFree, szFree, free')
  {
    top', frag', free' := top, frag, free;
    pFree, szFree, nRet := 0, 0, 0;
    ghost var n, x := |OnPage(arr, sz, iFirst, iEnd)|, OnPage(arr, sz, iFirst, iEnd);
    var i := iFirst;
    while i < iEnd
      invariant iFirst <= i <= iEnd && x == OnPage(arr, sz, i, iEnd) && nRet + |x| == n
      invariant Freeing(a[..], ds, g, top, top', frag', p, x, s, pFree, szFree, free')
    {
      OnPageNext(arr, sz, i, iEnd);
      ghost var rest := OnPage(arr, sz, i + 1, iEnd);
      pFree, szFree, nRet, top', frag', free' :=
        FreeStep(a, g, arr[i], sz[i], pFree, szFree, nRet, ds, top, top', frag', p, x, rest, s, free');
      x := rest;
      i := i + 1;
    }
  }

  method FreeLast(a: array<byte>, g: Shape, pFree: nat, szFree: nat, ghost ds: seq<byte>, ghost top0: nat,
                  ghost top: nat, ghost frag: nat, ghost p: seq<Block>, ghost s: seq<Block>, ghost free: seq<Block>)
    returns (ghost top': nat, ghost frag': nat, ghost free': seq<Block>)
    requires Freeing(a[..], ds, g, top0, top, frag, p, [], s, pFree, szFree, free)
    modifies a
    ensures Body(a[..], g, top', frag', p + s, free') && NotZero(Get2(a[..], g.hdr + 5)) == top' >= top0
    ensures SameElse(ds, a[..], g, top0, p + s)
  {
    top', frag', free' := top, frag, free;
    assert p + [] + s == p + s && p + s + [] == p + s;
    if pFree != 0 {
      assert p + s + [Block(pFree, szFree)] == p + [] + s + [Block(pFree, szFree)] + [];
      top', frag', free' := FreeRun(a, g, pFree, szFree, ds, top0, top, frag, p, [], s, free, []);
      assert p + [] + s + [] == p + s;
    }
  }

  /** pageFreeArray: the space of those of the cells iFirst .. iEnd that are on the page is given
      back, cells that lie one before the other in one piece. */
  method FreeArray(a: array<byte>, g: Shape, arr: seq<Ref>, sz: seq<nat>, iFirst: nat, iEnd: nat,
                   ghost top: nat, ghost frag: nat, ghost p: seq<Block>, ghost s: seq<Block>, ghost free: seq<Block>)
    returns (nRet: nat, ghost top': nat, ghost frag': nat, ghost free': seq<Block>)
    requires |sz| == |arr| && iFirst <= iEnd <= |arr|
    requires Body(a[..], g, top, frag, p + OnPage(arr, sz, iFirst, iEnd) + s, free)
    requires NotZero(Get2(a[..], g.hdr + 5)) == top
    modifies a
    ensures nRet == |OnPage(arr, sz, iFirst, iEnd)|
    ensures Body(a[..], g, top', frag', p + s, free') && NotZero(Get2(a[..], g.hdr + 5)) == top' >= top
    ensures SameElse(old(a[..]), a[..], g, top, p + s)
  {
    ghost var ds := a[..];
    Untouched(ds, g, top, frag, p, OnPage(arr, sz, iFirst, iEnd), s, free);
    var pFree, szFree;
    nRet, pFree, szFree, top', frag', free' := FreeCells(a, g, arr, sz, iFirst, iEnd, ds, top, frag, p, s, free);
    top', frag', free' := FreeLast(a, g, pFree, szFree, ds, top, top', frag', p, s, free');
  }

  lemma Unchanged(d: seq<byte>, g: Shape, top: nat, frag: nat, used: seq<Block>, free: seq<Block>)
    requires Body(d, g, top, frag, used, free)
    ensures SameElse(d, d, g, top, used)
  {
    forall i | 0 <= i < |used| ensures SameBytes(d, d, used[i]) {
      assert UsedAt(used, top, g.usable, i);
    }
  }

  lemma Untouched(d: seq<byte>, g: Shape, top: nat, frag: nat, p: seq<Block>, x: seq<Block>, s: seq<Block>,
                  free: seq<Block>)
    requires Body(d, g, top, frag, p + x + s, free)
    ensures SameElse(d, d, g, top, p + s) && p + x + s + [] == p + x + s
  {
    forall i | 0 <= i < |p + s| ensures SameBytes(d, d, (p + s)[i]) {
      assert UsedAt(p + x + s, top, g.usable, if i < |p| then i else i + |x|);
    }
  }

  // ----- pageInsertArray

  /** Below the content area only the bytes lo .. hi and header fields have changed, but neither
      the cell count nor the stored content start; the blocks have their bytes. */
  ghost predicate Slotted(d: seq<byte>, d': seq<byte>, g: Shape, lo: nat, hi: nat, top: nat, used: seq<Block>) {
    && |d'| == |d| && g.hdr + 8 <= |d| && SameTop(d, d', g)
    && (forall j :: g.hdr + 8 <= j < top && j < |d| && !(lo <= j < hi) ==> d'[j] == d[j])
    && d'[g.hdr + 3] == d[g.hdr + 3] && d'[g.hdr + 4] == d[g.hdr + 4]
    && forall i :: 0 <= i < |used| ==> SameBytes(d, d', used[i])
  }

  /** A block that is in use is written. */
  lemma BodyWrite(d: seq<byte>, g: Shape, top: nat, frag: nat, v: seq<Block>, b: Block, free: seq<Block>,
                  cell: seq<byte>)
    requires Body(d, g, top, frag, v + [b], free) && |cell| == b.size && b.End() <= |d|
    ensures var d' := Copied(d, b.pos, cell, 0, |cell|);
      Body(d', g, top, frag, v + [b], free) && SameElse(d, d', g, top, v) &&
      SameTop(d, d', g) && d'[b.pos..b.End()] == cell
  {
    var d', used := Copied(d, b.pos, cell, 0, |cell|), v + [b];
    assert UsedAt(used, top, g.usable, |v|);
    forall k | 0 <= k < |free| ensures SameHead(d, d', free, k) {
      assert LinkAt(d, free, k) && FreeAt(free, top, g.usable, k) && CrossAt(used, free, |v|, k);
    }
    ChainFrame(d, d', g.hdr + 1, free);
    forall i | 0 <= i < |v| ensures SameBytes(d, d', v[i]) {
      assert UsedAt(used, top, g.usable, i) && ApartAt(used, i, |v|);
    }
  }

  /** Two bytes below the content area are written. */
  lemma BodyPointer(d: seq<byte>, g: Shape, top: nat, frag: nat, used: seq<Block>, free: seq<Block>, q: nat, v: nat)
    requires Body(d, g, top, frag, used, free) && g.hdr + 8 <= q && q + 2 <= top
    ensures q + 1 < |d| && Body(Put2(d, q, v), g, top, frag, used, free)
    ensures forall i :: 0 <= i < |used| ==> SameBytes(d, Put2(d, q, v), used[i])
  {
    var d' := Put2(d, q, v);
    forall k | 0 <= k < |free| ensures SameHead(d, d', free, k) {
      assert LinkAt(d, free, k) && FreeAt(free, top, g.usable, k);
    }
    ChainFrame(d, d', g.hdr + 1, free);
    forall i | 0 <= i < |used| ensures SameBytes(d, d', used[i]) {
      assert UsedAt(used, top, g.usable, i);
    }
  }

  /** Space for a cell of n bytes: a slot, or the end of the gap, which must not go below pBegin. */
  method TakeSpace(a: array<byte>, g: Shape, pBegin: nat, pData: nat, n: nat,
                   ghost frag: nat, ghost used: seq<Block>, ghost free: seq<Block>)
    returns (ok: bool, slot: nat, pData': nat, ghost frag': nat, ghost free': seq<Block>)
    requires Body(a[..], g, pData, frag, used, free) && 4 <= n && g.off <= pBegin <= pData
    modifies a
    ensures !ok ==> a[..] == old(a[..])
    ensures ok ==> pBegin <= pData' <= pData && Body(a[..], g, pData', frag', used + [Block(slot, n)], free')
    ensures ok ==> SameElse(old(a[..]), a[..], g, pData, used) && SameTop(old(a[..]), a[..], g)
  {
    frag', free', pData', slot, ok := frag, free, pData, 0, true;
    assert free != [] ==> FreeAt(free, pData, g.usable, 0);
    if a[g.hdr + 1] != 0 || a[g.hdr + 2] != 0 {
      slot, frag', free' := FindSlot(a, g, n, pData, frag, used, free);
    }
    if slot == 0 {
      if pData - pBegin < n {
        return false, 0, pData, frag, free;
      }
      pData' := pData - n;
      slot := pData';
      BodyTakeGap(a[..], g, pData, frag, used, free, n);
      Unchanged(a[..], g, pData, frag, used, free);
    }
  }

  /** A block taken, its bytes written and its pointer at q, all in one. */
  lemma PutDoes(d: seq<byte>, d1: seq<byte>, g: Shape, pBegin: nat, top: nat, top': nat, frag: nat, v: seq<Block>,
                b: Block, free: seq<Block>, cell: seq<byte>, q: nat)
    requires SameElse(d, d1, g, top, v) && SameTop(d, d1, g) && Body(d1, g, top', frag, v + [b], free)
    requires |cell| == b.size
    requires g.hdr + 8 <= q && q + 2 <= pBegin <= top' <= top && b.pos < 65536
    ensures b.End() <= |d1| && q + 1 < |d1|
    ensures var d' := Put2(Copied(d1, b.pos, cell, 0, |cell|), q, b.pos);
      && Body(d', g, top', frag, v + [b], free) && d'[b.pos..b.End()] == cell && Get2(d', q) == b.pos
      && Slotted(d, d', g, q, q + 2, pBegin, v)
  {
    var used := v + [b];
    assert UsedAt(used, top', g.usable, |v|) && used[|v|] == b;
    var d2 := Copied(d1, b.pos, cell, 0, |cell|);
    BodyWrite(d1, g, top', frag, v, b, free, cell);
    BodyPointer(d2, g, top', frag, used, free, q, b.pos);
    var d' := Put2(d2, q, b.pos);
    assert SameBytes(d2, d', used[|v|]);
    forall i | 0 <= i < |v| ensures SameBytes(d, d', v[i]) {
      assert SameBytes(d, d1, v[i]) && SameBytes(d1, d2, v[i]) && SameBytes(d2, d', used[i]);
    }
  }

  /** One cell: its space, its bytes, and its pointer at slot number at. */
  method InsertOne(a: array<byte>, g: Shape, pBegin: nat, pData: nat, at: nat, cell: seq<byte>,
                   ghost frag: nat, ghost front: seq<Block>, ghost back: seq<Block>, ghost free: seq<Block>)
    returns (ok: bool, slot: nat, pData': nat, ghost frag': nat, ghost free': seq<Block>)
    requires Body(a[..], g, pData, frag, front + back, free) && 4 <= |cell| && g.off + 2 * at + 2 <= pBegin <= pData
    modifies a
    ensures !ok ==> a[..] == old(a[..])
    ensures ok ==>
      pBegin <= pData' <= pData && Body(a[..], g, pData', frag', front + [Block(slot, |cell|)] + back, free')
    ensures ok ==> slot + |cell| <= a.Length && a[slot..slot + |cell|] == cell && Get2(a[..], g.off + 2 * at) == slot
    ensures ok ==> Slotted(old(a[..]), a[..], g, g.off + 2 * at, g.off + 2 * at + 2, pBegin, front + back)
  {
    ghost var d, v := a[..], front + back;
    ok, slot, pData', frag', free' := TakeSpace(a, g, pBegin, pData, |cell|, frag, v, free);
    if ok {
      InContent(a[..], g, pData', frag', v, Block(slot, |cell|), free');
      PutCell(a, g, pBegin, slot, cell, g.off + 2 * at, d, pData, pData', frag', v, free');
      BodyReordered(a[..], g, pData', frag', front, back, Block(slot, |cell|), free');
    }
  }

  /** The bytes of a cell and its pointer, in a block just taken. */
  method PutCell(a: array<byte>, g: Shape, pBegin: nat, slot: nat, cell: seq<byte>, q: nat, ghost d: seq<byte>,
                 ghost top: nat, ghost top': nat, ghost frag: nat, ghost v: seq<Block>, ghost free: seq<Block>)
    requires SameElse(d, a[..], g, top, v) && SameTop(d, a[..], g)
    requires Body(a[..], g, top', frag, v + [Block(slot, |cell|)], free)
    requires g.hdr + 8 <= q && q + 2 <= pBegin <= top' <= top && slot < 65536 && slot + |cell| <= a.Length
    modifies a
    ensures Body(a[..], g, top', frag, v + [Block(slot, |cell|)], free) && q + 1 < a.Length
    ensures a[slot..slot + |cell|] == cell && Get2(a[..], q) == slot && Slotted(d, a[..], g, q, q + 2, pBegin, v)
  {
    ghost var d1 := a[..];
    PutDoes(d, d1, g, pBegin, top, top', frag, v, Block(slot, |cell|), free, cell, q);
    CopySeq(a, slot, cell);
    Write2(a, q, slot);
    assert a[slot..slot + |cell|] == a[..][slot..slot + |cell|];
  }

  lemma BodyReordered(d: seq<byte>, g: Shape, top: nat, frag: nat, front: seq<Block>, back: seq<Block>, b: Block,
                      free: seq<Block>)
    requires Body(d, g, top, frag, front + back + [b], free)
    ensures Body(d, g, top, frag, front + [b] + back, free)
  {
    SpaceReordered(g.usable, top, frag, front + back, b, free, |front|);
    assert Inserted(front + back, |front|, b) == front + [b] + back;
  }

  lemma InContent(d: seq<byte>, g: Shape, top: nat, frag: nat, v: seq<Block>, b: Block, free: seq<Block>)
    requires Body(d, g, top, frag, v + [b], free)
    ensures b.End() <= |d| && b.pos < 65536 && 4 <= b.size
  {
    assert UsedAt(v + [b], top, g.usable, |v|);
  }

  method CopySeq(a: array<byte>, at: nat, cell: seq<byte>)
    requires at + |cell| <= a.Length
    modifies a
    ensures a[..] == Copied(old(a[..]), at, cell, 0, |cell|)
  {
    forall j | at <= j < at + |cell| {
      a[j] := cell[j - at];
    }
  }

  /** Cell i of those inserted is in its block, and its pointer in its slot. */
  ghost predicate NewAt(d: seq<byte>, g: Shape, arr: seq<Ref>, iFirst: nat, at: nat, nb: seq<Block>, i: nat)
    requires i < |nb| && iFirst + i < |arr|
  {
    && arr[iFirst + i].There? && nb[i].End() <= |d|
    && d[nb[i].pos..nb[i].End()] == arr[iFirst + i].bytes
    && g.off + 2 * (at + i) + 1 < |d| && Get2(d, g.off + 2 * (at + i)) == nb[i].pos
  }

  /** One more cell: what was there before is still there. */
  lemma SlottedOn(d0: seq<byte>, d1: seq<byte>, d2: seq<byte>, g: Shape, lo: nat, mid: nat, top: nat,
                  front: seq<Block>, nb: seq<Block>, back: seq<Block>)
    requires Slotted(d0, d1, g, lo, mid, top, front + back) && lo <= mid
    requires Slotted(d1, d2, g, mid, mid + 2, top, front + nb + back)
    ensures Slotted(d0, d2, g, lo, mid + 2, top, front + back)
  {
    var k, w := front + back, front + nb + back;
    forall i | 0 <= i < |k| ensures SameBytes(d0, d2, k[i]) {
      var j := if i < |front| then i else i + |nb|;
      assert SameBytes(d0, d1, k[i]) && w[j] == k[i] && SameBytes(d1, d2, w[j]);
    }
  }

  lemma StillNew(d1: seq<byte>, d2: seq<byte>, g: Shape, arr: seq<Ref>, iFirst: nat, at: nat, top: nat,
                 front: seq<Block>, nb: seq<Block>, back: seq<Block>, i: nat)
    requires g.Ok() && i < |nb| && iFirst + i < |arr| && NewAt(d1, g, arr, iFirst, at, nb, i)
    requires g.off + 2 * (at + |nb|) <= top
    requires Slotted(d1, d2, g, g.off + 2 * (at + |nb|), g.off + 2 * (at + |nb|) + 2, top, front + nb + back)
    ensures NewAt(d2, g, arr, iFirst, at, nb, i)
  {
    assert (front + nb + back)[|front| + i] == nb[i] && SameBytes(d1, d2, (front + nb + back)[|front| + i]);
  }

  /** The last cell so far is in place, and the ones before it still are. */
  lemma OneMore(d1: seq<byte>, d2: seq<byte>, g: Shape, arr: seq<Ref>, iFirst: nat, at: nat, top: nat,
                front: seq<Block>, nb: seq<Block>, back: seq<Block>, b: Block)
    requires g.Ok() && iFirst + |nb| < |arr| && g.off + 2 * (at + |nb|) + 2 <= top
    requires forall i :: 0 <= i < |nb| ==> NewAt(d1, g, arr, iFirst, at, nb, i)
    requires Slotted(d1, d2, g, g.off + 2 * (at + |nb|), g.off + 2 * (at + |nb|) + 2, top, front + nb + back)
    requires NewAt(d2, g, arr, iFirst, at, nb + [b], |nb|)
    ensures forall i :: 0 <= i <= |nb| ==> NewAt(d2, g, arr, iFirst, at, nb + [b], i)
  {
    forall i | 0 <= i <= |nb| ensures NewAt(d2, g, arr, iFirst, at, nb + [b], i) {
      if i < |nb| {
        StillNew(d1, d2, g, arr, iFirst, at, top, front, nb, back, i);
      }
    }
  }

  /** What pageInsertArray has in hand after |nb| cells; the page was ds. */
  ghost predicate Inserting(d: seq<byte>, ds: seq<byte>, g: Shape, pBegin: nat, pData: nat, frag: nat, arr: seq<Ref>,
                            iFirst: nat, at: nat, front: seq<Block>, nb: seq<Block>, back: seq<Block>,
                            free: seq<Block>) {
    && pBegin <= pData && Body(d, g, pData, frag, front + nb + back, free)
    && iFirst + |nb| <= |arr| && (forall j :: 0 <= j < |nb| ==> NewAt(d, g, arr, iFirst, at, nb, j))
    && Slotted(ds, d, g, g.off + 2 * at, g.off + 2 * (at + |nb|), pBegin, front + back)
  }

  method InsertNext(a: array<byte>, g: Shape, pBegin: nat, pData: nat, slotNo: nat, cell: seq<byte>,
                    ghost ds: seq<byte>, ghost frag: nat, ghost arr: seq<Ref>, ghost iFirst: nat, ghost at: nat,
                    ghost front: seq<Block>, ghost nb: seq<Block>, ghost back: seq<Block>, ghost free: seq<Block>)
    returns (ok: bool, pData': nat, ghost frag': nat, ghost nb': seq<Block>, ghost free': seq<Block>)
    requires Inserting(a[..], ds, g, pBegin, pData, frag, arr, iFirst, at, front, nb, back, free)
    requires slotNo == at + |nb| && g.off + 2 * slotNo + 2 <= pBegin && 4 <= |cell|
    requires iFirst + |nb| < |arr| && arr[iFirst + |nb|] == There(cell)
    modifies a
    ensures if ok then
              Inserting(a[..], ds, g, pBegin, pData', frag', arr, iFirst, at, front, nb', back, free') &&
              |nb'| == |nb| + 1
            else a[..] == old(a[..])
  {
    ghost var d1 := a[..];
    nb' := nb;
    var slot;
    ok, slot, pData', frag', free' := InsertOne(a, g, pBegin, pData, slotNo, cell, frag, front + nb, back, free);
    if ok {
      ghost var b := Block(slot, |cell|);
      nb' := nb + [b];
      SlottedOn(ds, d1, a[..], g, g.off + 2 * at, g.off + 2 * slotNo, pBegin, front, nb, back);
      OneMore(d1, a[..], g, arr, iFirst, at, pBegin, front, nb, back, b);
      assert front + nb' + back == front + nb + [b] + back;
    }
  }

  /** pageInsertArray: the cells iFirst .. iFirst + n get space, and slots `at` and up of the
      pointer array; or there is too little space in one piece, and all other cells are as they
      were. */
  method InsertArray(a: array<byte>, g: Shape, pBegin: nat, pData0: nat, at: nat, arr: seq<Ref>, iFirst: nat, n: nat,
                     ghost frag0: nat, ghost front: seq<Block>, ghost back: seq<Block>, ghost free0: seq<Block>)
    returns (ok: bool, pData: nat, ghost frag: nat, ghost nb: seq<Block>, ghost free: seq<Block>)
    requires Body(a[..], g, pData0, frag0, front + back, free0) && g.off + 2 * (at + n) <= pBegin <= pData0
    requires iFirst + n <= |arr| && forall c :: iFirst <= c < iFirst + n ==> arr[c].There? && 4 <= |arr[c].bytes|
    modifies a
    ensures ok ==>
      |nb| == n && Inserting(a[..], old(a[..]), g, pBegin, pData, frag, arr, iFirst, at, front, nb, back, free)
    ensures Slotted(old(a[..]), a[..], g, g.off + 2 * at, g.off + 2 * (at + n), pBegin, front + back)
  {
    ghost var ds := a[..];
    pData, frag, free, nb := pData0, frag0, free0, [];
    assert front + [] + back == front + back;
    Unchanged(ds, g, pData0, frag0, front + back, free0);
    var i := 0;
    while i < n
      invariant i <= n && |nb| == i
      invariant Inserting(a[..], ds, g, pBegin, pData, frag, arr, iFirst, at, front, nb, back, free)
    {
      ok, pData, frag, nb, free :=
        InsertNext(a, g, pBegin, pData, at + i, arr[iFirst + i].bytes, ds, frag, arr, iFirst, at, front, nb, back,
                   free);
      if !ok {
        return;
      }
      i := i + 1;
    }
    ok := true;
  }
}
