/** A well-formed b-tree page as a byte string, and what the page operations do to it. */
module PageImage {
  import opened Bytes
  import opened Blocks
  import opened PageLayout
  import opened PageBytes

  /** The size of the cell a byte string begins with depends on that cell's bytes only. */
  ghost predicate LocalSize(f: seq<byte> -> nat) {
    forall s, t :: LocalAt(f, s, t)
  }

  ghost predicate LocalAt(f: seq<byte> -> nat, s: seq<byte>, t: seq<byte>) {
    f(s) <= |s| && f(s) <= |t| && s[..f(s)] == t[..f(s)] ==> f(t) == f(s)
  }

  /** Usable bytes, offset of the page header and of the cell-pointer array, and the cell
      size function of the page's type. */
  datatype Shape = Shape(usable: nat, hdr: nat, off: nat, f: seq<byte> -> nat) {
    ghost predicate Ok() {
      hdr + 8 <= off && off <= usable <= 65536 && LocalSize(f)
    }
  }

  /** Cell i: its pointer, and bytes that say how long it is. */
  ghost predicate CellAt(d: seq<byte>, g: Shape, cells: seq<Block>, i: nat)
    requires i < |cells|
  {
    && g.off + 2 * i + 1 < |d| && cells[i].End() <= |d|
    && Get2(d, g.off + 2 * i) == cells[i].pos
    && g.f(d[cells[i].pos..]) == cells[i].size
  }

  /** The page holds `cells`; the blocks `extra` are allocated but not pointed to. */
  ghost predicate Good(d: seq<byte>, g: Shape, top: nat, frag: nat, cells: seq<Block>, extra: seq<Block>,
                       free: seq<Block>) {
    && g.Ok() && |d| == g.usable && g.off + 2 * |cells| + 2 * |extra| <= top
    && Space(g.usable, top, frag, cells + extra, free)
    && Chain(d, g.hdr + 1, free)
    && Get2(d, g.hdr + 3) == |cells|
    && NotZero(Get2(d, g.hdr + 5)) == top
    && d[g.hdr + 7] == frag
    && forall i :: 0 <= i < |cells| ==> CellAt(d, g, cells, i)
  }

  /** Cell i and its pointer are the same in d and d'. */
  ghost predicate Kept(d: seq<byte>, d': seq<byte>, g: Shape, cells: seq<Block>, i: nat)
    requires i < |cells|
  {
    && g.off + 2 * i + 1 < |d| == |d'| && cells[i].End() <= |d|
    && d'[g.off + 2 * i] == d[g.off + 2 * i] && d'[g.off + 2 * i + 1] == d[g.off + 2 * i + 1]
    && d'[cells[i].pos..cells[i].End()] == d[cells[i].pos..cells[i].End()]
  }

  lemma KeptCell(d: seq<byte>, d': seq<byte>, g: Shape, cells: seq<Block>, i: nat)
    requires LocalSize(g.f) && i < |cells| && CellAt(d, g, cells, i) && Kept(d, d', g, cells, i)
    ensures CellAt(d', g, cells, i)
  {
    var b := cells[i];
    SizeMoves(g.f, d, b.pos, d', b.pos, b.size);
  }

  /** The same bytes elsewhere have the same size. */
  lemma SizeMoves(f: seq<byte> -> nat, d: seq<byte>, p: nat, d': seq<byte>, p': nat, n: nat)
    requires LocalSize(f) && p + n <= |d| && p' + n <= |d'|
    requires f(d[p..]) == n && d'[p'..p' + n] == d[p..p + n]
    ensures f(d'[p'..]) == n
  {
    var s, t := d[p..], d'[p'..];
    assert s[..n] == d[p..p + n] && t[..n] == d'[p'..p' + n];
    assert LocalAt(f, s, t);
  }

  /** The bytes in which d and d' may differ: header fields, and the n bytes from p on. */
  ghost predicate SameBut(d: seq<byte>, d': seq<byte>, g: Shape, p: nat, n: nat) {
    && |d'| == |d|
    && forall j :: g.hdr + 8 <= j < |d| && !(p <= j < p + n) ==> d'[j] == d[j]
  }

  lemma HeadersApart(g: Shape, top: nat, frag: nat, used: seq<Block>, free: seq<Block>)
    requires g.Ok() && g.off <= top && Space(g.usable, top, frag, used, free)
    ensures Headers(g.hdr + 1, free)
  {
    var at := g.hdr + 1;
    forall k | 0 <= k < |free| ensures HeadAt(at, free, k) {
      assert FreeAt(free, top, g.usable, k);
    }
  }

  lemma CellRegions(g: Shape, top: nat, frag: nat, cells: seq<Block>, extra: seq<Block>, free: seq<Block>)
    requires Space(g.usable, top, frag, cells + extra, free)
    ensures forall i :: 0 <= i < |cells| ==> UsedAt(cells, top, g.usable, i)
    ensures forall i, k :: 0 <= i < |cells| && 0 <= k < |free| ==> CrossAt(cells, free, i, k)
    ensures forall i, j :: 0 <= i < j < |cells| ==> ApartAt(cells, i, j)
    ensures forall i, j :: 0 <= i < |cells| && 0 <= j < |extra| ==> MergedAt(cells, extra[j], i)
  {
    var used := cells + extra;
    forall i | 0 <= i < |cells| ensures UsedAt(cells, top, g.usable, i) {
      assert UsedAt(used, top, g.usable, i);
    }
    forall i, k | 0 <= i < |cells| && 0 <= k < |free| ensures CrossAt(cells, free, i, k) {
      assert CrossAt(used, free, i, k);
    }
    forall i, j | 0 <= i < j < |cells| ensures ApartAt(cells, i, j) {
      assert ApartAt(used, i, j);
    }
    forall i, j | 0 <= i < |cells| && 0 <= j < |extra| ensures MergedAt(cells, extra[j], i) {
      assert ApartAt(used, i, |cells| + j);
    }
  }

  // ----- the content area without the cell-pointer array

  /** The content area: the blocks `used`, whatever points to them, the freeblock list and the
      fragment count. */
  ghost predicate Body(d: seq<byte>, g: Shape, top: nat, frag: nat, used: seq<Block>, free: seq<Block>) {
    && g.Ok() && |d| == g.usable && g.off <= top
    && Space(g.usable, top, frag, used, free)
    && Chain(d, g.hdr + 1, free)
    && d[g.hdr + 7] == frag
  }

  ghost predicate SameBytes(d: seq<byte>, d': seq<byte>, b: Block) {
    b.End() <= |d| == |d'| && d'[b.pos..b.End()] == d[b.pos..b.End()]
  }

  /** Nothing below the content area has changed but for the header, in which the cell count is
      the same, and the blocks have their bytes. */
  ghost predicate SameElse(d: seq<byte>, d': seq<byte>, g: Shape, top: nat, used: seq<Block>) {
    && |d'| == |d| && g.hdr + 8 <= |d|
    && (forall j :: g.hdr + 8 <= j < top && j < |d| ==> d'[j] == d[j])
    && d'[g.hdr + 3] == d[g.hdr + 3] && d'[g.hdr + 4] == d[g.hdr + 4]
    && forall i :: 0 <= i < |used| ==> SameBytes(d, d', used[i])
  }

  /** The stored start of the content area. */
  ghost predicate SameTop(d: seq<byte>, d': seq<byte>, g: Shape) {
    g.hdr + 6 < |d| == |d'| && d'[g.hdr + 5] == d[g.hdr + 5] && d'[g.hdr + 6] == d[g.hdr + 6]
  }

  /** Changes confined to the header and to n bytes of the content area that are no block's. */
  lemma ElseSame(d: seq<byte>, d': seq<byte>, g: Shape, top: nat, used: seq<Block>, p: nat, n: nat)
    requires g.Ok() && |d| == g.usable && g.off <= top <= p && SameBut(d, d', g, p, n)
    requires d'[g.hdr + 3] == d[g.hdr + 3] && d'[g.hdr + 4] == d[g.hdr + 4]
    requires forall i :: 0 <= i < |used| ==> UsedAt(used, top, g.usable, i) && MergedAt(used, Block(p, n), i)
    ensures SameElse(d, d', g, top, used)
  {
    forall i | 0 <= i < |used| ensures SameBytes(d, d', used[i]) {
      assert UsedAt(used, top, g.usable, i) && MergedAt(used, Block(p, n), i);
    }
  }

  /** Bytes p .. p + n, inside freeblock k, belong to no cell. */
  lemma InFreeblock(g: Shape, top: nat, frag: nat, used: seq<Block>, free: seq<Block>, k: nat, p: nat, n: nat)
    requires Space(g.usable, top, frag, used, free) && k < |free|
    requires free[k].pos <= p && p + n <= free[k].End()
    ensures top <= p
    ensures forall i :: 0 <= i < |used| ==> UsedAt(used, top, g.usable, i) && MergedAt(used, Block(p, n), i)
  {
    assert FreeAt(free, top, g.usable, k);
    forall i | 0 <= i < |used| ensures UsedAt(used, top, g.usable, i) && MergedAt(used, Block(p, n), i) {
      assert UsedAt(used, top, g.usable, i) && CrossAt(used, free, i, k);
    }
  }

  /** Changing header fields only. */
  lemma InHeader(g: Shape, top: nat, frag: nat, used: seq<Block>, free: seq<Block>)
    requires Space(g.usable, top, frag, used, free)
    ensures forall i :: 0 <= i < |used| ==> UsedAt(used, top, g.usable, i) && MergedAt(used, Block(top, 0), i)
  {
    forall i | 0 <= i < |used| ensures UsedAt(used, top, g.usable, i) && MergedAt(used, Block(top, 0), i) {
      assert UsedAt(used, top, g.usable, i);
    }
  }

  /** Setting a header byte that is not part of the list head. */
  lemma ChainHeaderByte(d: seq<byte>, g: Shape, top: nat, used: seq<Block>, frag: nat, free: seq<Block>, h: nat,
                        v: byte)
    requires g.Ok() && g.off <= top && |d| == g.usable && Space(g.usable, top, frag, used, free)
    requires Chain(d, g.hdr + 1, free) && 3 <= h < 8
    ensures Chain(d[g.hdr + h := v], g.hdr + 1, free)
  {
    var d' := d[g.hdr + h := v];
    forall k | 0 <= k < |free| ensures SameHead(d, d', free, k) {
      assert LinkAt(d, free, k) && FreeAt(free, top, g.usable, k);
    }
    ChainFrame(d, d', g.hdr + 1, free);
  }

  /** pageFindSlot takes all of freeblock k. */
  lemma BodyTakeWhole(d: seq<byte>, g: Shape, top: nat, frag: nat, used: seq<Block>, free: seq<Block>,
                      k: nat, n: nat, x: nat, d': seq<byte>)
    requires Body(d, g, top, frag, used, free) && k < |free|
    requires 4 <= n && free[k].size == n + x && x < 4 && frag + x <= 60
    requires LinkAddr(g.hdr + 1, free, k) + 1 < |d|
    requires d' == Put2(d, LinkAddr(g.hdr + 1, free, k), PosOf(free, k + 1))[g.hdr + 7 := frag + x]
    ensures Body(d', g, top, frag + x, used + [Block(free[k].pos + x, n)], Without(free, k))
    ensures SameElse(d, d', g, top, used) && SameTop(d, d', g)
  {
    HeadersApart(g, top, frag, used, free);
    Unlinked(d, g.hdr + 1, free, k);
    TakeWhole(g.usable, top, frag, used, free, k, n, x);
    var d1 := Put2(d, LinkAddr(g.hdr + 1, free, k), PosOf(free, k + 1));
    ChainHeaderByte(d1, g, top, used + [Block(free[k].pos + x, n)], frag + x, Without(free, k), 7, frag + x);
    if k == 0 {
      InHeader(g, top, frag, used, free);
      ElseSame(d, d', g, top, used, top, 0);
    } else {
      assert FreeAt(free, top, g.usable, k - 1);
      InFreeblock(g, top, frag, used, free, k - 1, free[k - 1].pos, 2);
      ElseSame(d, d', g, top, used, free[k - 1].pos, 2);
    }
  }

  /** pageFindSlot takes the end of freeblock k. */
  lemma BodyTakeTail(d: seq<byte>, g: Shape, top: nat, frag: nat, used: seq<Block>, free: seq<Block>,
                     k: nat, n: nat, x: nat, d': seq<byte>)
    requires Body(d, g, top, frag, used, free) && k < |free|
    requires 4 <= n && free[k].size == n + x && 4 <= x && free[k].pos + 3 < |d|
    requires d' == Put2(d, free[k].pos + 2, x)
    ensures Body(d', g, top, frag, used + [Block(free[k].pos + x, n)], free[k := Block(free[k].pos, x)])
    ensures SameElse(d, d', g, top, used) && SameTop(d, d', g)
  {
    HeadersApart(g, top, frag, used, free);
    Trimmed(d, g.hdr + 1, free, k, x);
    TakeTail(g.usable, top, frag, used, free, k, n, x);
    assert FreeAt(free, top, g.usable, k);
    InFreeblock(g, top, frag, used, free, k, free[k].pos + 2, 2);
    ElseSame(d, d', g, top, used, free[k].pos + 2, 2);
  }

  /** Space taken from the gap: the bytes need not change. */
  lemma BodyTakeGap(d: seq<byte>, g: Shape, top: nat, frag: nat, used: seq<Block>, free: seq<Block>, n: nat)
    requires Body(d, g, top, frag, used, free) && 4 <= n && g.off + n <= top
    ensures Body(d, g, top - n, frag, used + [Block(top - n, n)], free)
  {
    TakeGap(g.usable, top, frag, used, free, n);
  }

  // ----- giving a block back

  /** The bytes written by freeSpace when the freed block joins the list: `p` is the address of
      the pointer to the next freeblock. */
  function JoinBytes(d: seq<byte>, h: nat, frag: byte, p: nat, x: Block, next: nat): (r: seq<byte>)
    requires h + 7 < |d| && p + 1 < |d| && x.pos + 3 < |d|
  {
    Put2(Put2(Put2(d[h + 7 := frag], p, x.pos), x.pos, next), x.pos + 2, x.size)
  }

  /** ... and when the freed block starts the content area. */
  function ShrinkBytes(d: seq<byte>, h: nat, frag: byte, x: Block, next: nat): (r: seq<byte>)
    requires h + 7 < |d| && x.pos + 3 < |d|
  {
    Put2(Put2(Put2(Put2(d[h + 7 := frag], h + 1, next), h + 5, x.End()), x.pos, next), x.pos + 2, x.size)
  }

  /** What JoinBytes writes, and where it writes nothing. */
  ghost predicate Joined(d: seq<byte>, d': seq<byte>, h: nat, p: nat, x: Block, next: nat) {
    && |d'| == |d| && h + 7 < |d| && p + 1 < |d| && x.pos + 3 < |d|
    && Get2(d', p) == (if p == x.pos then next else x.pos)
    && Get2(d', x.pos) == next && Get2(d', x.pos + 2) == x.size
    && forall j :: 0 <= j < |d| && j != h + 7 && !(p <= j < p + 2) && !(x.pos <= j < x.pos + 4) ==> d'[j] == d[j]
  }

  lemma JoinFacts(d: seq<byte>, h: nat, frag: byte, p: nat, x: Block, next: nat)
    requires h + 7 < |d| && p + 1 < |d| && x.pos + 3 < |d| <= 65536 && x.size < 65536 && next < 65536
    requires p == x.pos || p + 2 <= x.pos
    requires h + 8 <= x.pos && (p + 2 <= h + 7 || h + 8 <= p)
    ensures Joined(d, JoinBytes(d, h, frag, p, x, next), h, p, x, next)
    ensures JoinBytes(d, h, frag, p, x, next)[h + 7] == frag
  {
  }

  lemma HeadAway(d: seq<byte>, d': seq<byte>, h: nat, p: nat, x: Block, next: nat, free: seq<Block>, l: nat)
    requires Joined(d, d', h, p, x, next) && l < |free| && free[l].pos + 3 < |d| && h + 8 <= free[l].pos
    requires p + 2 <= free[l].pos || free[l].pos + 4 <= p
    requires x.pos + 4 <= free[l].pos || free[l].pos + 4 <= x.pos
    ensures SameHead(d, d', free, l)
  {
  }

  /** Block x, freed space with the freeblocks a .. z next to it, where k is the first
      freeblock after block m. */
  ghost predicate Spliced(usable: nat, top: nat, used: seq<Block>, free: seq<Block>, m: nat, k: nat, a: nat, z: nat,
                          x: Block) {
    && a <= k <= a + 1 && k <= z <= |free| && m < |used|
    && (a < k ==> x.pos == free[a].pos)
    && top < x.pos && x.End() <= usable && 4 <= x.size
    && (forall l :: 0 <= l < |free| ==> ClearAt(free, a, z, x, l))
    && (forall i :: 0 <= i < |used| && i != m ==> MergedAt(used, x, i))
  }

  lemma MergeSplices(usable: nat, top: nat, used: seq<Block>, free: seq<Block>, m: nat, k: nat)
    requires Regions(usable, top, used, free) && m < |used| && Splits(free, used[m], k)
    requires JoinsLeft(free, used[m], k) ==> free[k - 1].End() <= used[m].pos
    requires JoinsRight(free, used[m], k) ==> used[m].End() <= free[k].pos
    requires top < Merged(free, used[m], k).pos
    ensures Spliced(usable, top, used, free, m, k, LeftKept(free, used[m], k), RightKept(free, used[m], k),
                    Merged(free, used[m], k))
  {
    MergedApart(usable, top, used, free, m, k);
    var a, z, x := LeftKept(free, used[m], k), RightKept(free, used[m], k), Merged(free, used[m], k);
    forall l | 0 <= l < |free| ensures ClearAt(free, a, z, x, l) {
      MergedSorted(usable, top, used, free, m, k, l);
    }
  }

  /** The freeblocks that keep their headers. */
  lemma JoinHeads(d: seq<byte>, g: Shape, top: nat, used: seq<Block>, frag: nat, free: seq<Block>,
                  m: nat, k: nat, a: nat, z: nat, x: Block, d': seq<byte>, l: nat)
    requires Body(d, g, top, frag, used, free) && Spliced(g.usable, top, used, free, m, k, a, z, x)
    requires Joined(d, d', g.hdr, LinkAddr(g.hdr + 1, free, k), x, PosOf(free, z))
    requires l < |free| && (l < a - 1 || z <= l)
    ensures SameHead(d, d', free, l)
  {
    assert FreeAt(free, top, g.usable, l) && LinkAt(d, free, l) && ClearAt(free, a, z, x, l);
    assert k > 0 ==> FreeAt(free, top, g.usable, k - 1);
    assert l < k - 1 ==> SortedAt(free, l, k - 1);
    assert k > 0 && k <= l ==> SortedAt(free, k - 1, l);
    HeadAway(d, d', g.hdr, LinkAddr(g.hdr + 1, free, k), x, PosOf(free, z), free, l);
  }

  lemma JoinRelinks(d: seq<byte>, g: Shape, top: nat, used: seq<Block>, frag: nat, free: seq<Block>,
                    m: nat, k: nat, a: nat, z: nat, x: Block, d': seq<byte>)
    requires Body(d, g, top, frag, used, free) && Spliced(g.usable, top, used, free, m, k, a, z, x)
    requires Joined(d, d', g.hdr, LinkAddr(g.hdr + 1, free, k), x, PosOf(free, z))
    ensures Relinked(d, d', g.hdr + 1, free, a, z, x)
  {
    forall l | 0 <= l < |free| && (l < a - 1 || z <= l) ensures SameHead(d, d', free, l) {
      JoinHeads(d, g, top, used, frag, free, m, k, a, z, x, d', l);
    }
    assert k > 0 ==> FreeAt(free, top, g.usable, k - 1) && LinkAt(d, free, k - 1);
    if a > 0 {
      assert FreeAt(free, top, g.usable, a - 1) && LinkAt(d, free, a - 1) && ClearAt(free, a, z, x, a - 1);
      assert a < k ==> SortedAt(free, a - 1, k - 1);
    }
  }

  /** The other blocks, and what lies below the content area. */
  lemma JoinKeeps(d: seq<byte>, d': seq<byte>, g: Shape, top: nat, frag: nat, used: seq<Block>, free: seq<Block>,
                  m: nat, k: nat, x: Block, next: nat)
    requires Body(d, g, top, frag, used, free) && k <= |free| && m < |used| && top < x.pos && 4 <= x.size
    requires Joined(d, d', g.hdr, LinkAddr(g.hdr + 1, free, k), x, next)
    requires forall i :: 0 <= i < |used| && i != m ==> MergedAt(used, x, i)
    ensures SameElse(d, d', g, top, Without(used, m)) && SameTop(d, d', g)
  {
    if k > 0 {
      assert FreeAt(free, top, g.usable, k - 1);
    }
    var rest := Without(used, m);
    forall j | 0 <= j < |rest| ensures SameBytes(d, d', rest[j]) {
      var i := if j < m then j else j + 1;
      assert UsedAt(used, top, g.usable, i) && MergedAt(used, x, i);
      assert k > 0 ==> CrossAt(used, free, i, k - 1);
      assert rest[j] == used[i];
      assert forall y :: rest[j].pos <= y < rest[j].End() ==> d'[y] == d[y];
    }
  }

  /** freeSpace when the freed block joins the list. */
  lemma JoinImage(d: seq<byte>, g: Shape, top: nat, frag: nat, used: seq<Block>, free: seq<Block>,
                  m: nat, k: nat, a: nat, z: nat, x: Block, frag': nat, d': seq<byte>)
    requires Body(d, g, top, frag, used, free) && Spliced(g.usable, top, used, free, m, k, a, z, x)
    requires Joined(d, d', g.hdr, LinkAddr(g.hdr + 1, free, k), x, PosOf(free, z)) && d'[g.hdr + 7] == frag'
    requires Space(g.usable, top, frag', Without(used, m), Replaced(free, a, z, x))
    ensures Body(d', g, top, frag', Without(used, m), Replaced(free, a, z, x))
    ensures SameElse(d, d', g, top, Without(used, m)) && SameTop(d, d', g)
  {
    JoinRelinks(d, g, top, used, frag, free, m, k, a, z, x, d');
    ReplacedChain(d, d', g.hdr + 1, free, a, z, x);
    JoinKeeps(d, d', g, top, frag, used, free, m, k, x, PosOf(free, z));
  }

  lemma ImageJoin(d: seq<byte>, g: Shape, top: nat, frag: nat, used: seq<Block>, free: seq<Block>,
                  m: nat, k: nat, d': seq<byte>)
    requires Body(d, g, top, frag, used, free) && m < |used| && Splits(free, used[m], k)
    requires JoinsLeft(free, used[m], k) ==> free[k - 1].End() <= used[m].pos
    requires JoinsRight(free, used[m], k) ==> used[m].End() <= free[k].pos
    requires top < Merged(free, used[m], k).pos && Merged(free, used[m], k).pos + 3 < |d|
    requires LinkAddr(g.hdr + 1, free, k) + 1 < |d| && 0 <= frag - Swallowed(free, used[m], k) < 256
    requires d' == JoinBytes(d, g.hdr, frag - Swallowed(free, used[m], k), LinkAddr(g.hdr + 1, free, k),
                             Merged(free, used[m], k), PosOf(free, RightKept(free, used[m], k)))
    ensures Body(d', g, top, frag - Swallowed(free, used[m], k), Without(used, m), FreeAfter(free, used[m], k))
    ensures SameElse(d, d', g, top, Without(used, m)) && SameTop(d, d', g)
  {
    var a, z, x := LeftKept(free, used[m], k), RightKept(free, used[m], k), Merged(free, used[m], k);
    var frag' := frag - Swallowed(free, used[m], k);
    GiveSpace(g.usable, top, frag, used, free, m, k);
    MergeSplices(g.usable, top, used, free, m, k);
    SpliceWrites(d, g, top, frag, used, free, m, k, a, z, x, frag');
    JoinImage(d, g, top, frag, used, free, m, k, a, z, x, frag', d');
  }

  lemma SpliceWrites(d: seq<byte>, g: Shape, top: nat, frag: nat, used: seq<Block>, free: seq<Block>,
                     m: nat, k: nat, a: nat, z: nat, x: Block, frag': byte)
    requires Body(d, g, top, frag, used, free) && Spliced(g.usable, top, used, free, m, k, a, z, x)
    requires LinkAddr(g.hdr + 1, free, k) + 1 < |d|
    ensures var d' := JoinBytes(d, g.hdr, frag', LinkAddr(g.hdr + 1, free, k), x, PosOf(free, z));
      Joined(d, d', g.hdr, LinkAddr(g.hdr + 1, free, k), x, PosOf(free, z)) && d'[g.hdr + 7] == frag'
  {
    assert k > 0 ==> FreeAt(free, top, g.usable, k - 1) && ClearAt(free, a, z, x, k - 1);
    assert z < |free| ==> FreeAt(free, top, g.usable, z);
    JoinFacts(d, g.hdr, frag', LinkAddr(g.hdr + 1, free, k), x, PosOf(free, z));
  }

  /** What ShrinkBytes writes. */
  ghost predicate Shrunk(d: seq<byte>, d': seq<byte>, h: nat, x: Block, next: nat) {
    && |d'| == |d| && h + 8 <= x.pos && x.pos + 3 < |d|
    && Get2(d', h + 1) == next && NotZero(Get2(d', h + 5)) == x.End()
    && d'[h + 3] == d[h + 3] && d'[h + 4] == d[h + 4]
    && forall j :: h + 8 <= j < |d| && !(x.pos <= j < x.pos + 4) ==> d'[j] == d[j]
  }

  lemma ShrinkFacts(d: seq<byte>, h: nat, frag: byte, x: Block, next: nat)
    requires h + 8 <= x.pos && x.pos + 3 < |d| && x.End() <= |d| <= 65536 && x.size < 65536 && next < 65536
    ensures Shrunk(d, ShrinkBytes(d, h, frag, x, next), h, x, next)
    ensures ShrinkBytes(d, h, frag, x, next)[h + 7] == frag
  {
  }

  lemma ShrinkImage(d: seq<byte>, g: Shape, top: nat, frag: nat, used: seq<Block>, free: seq<Block>,
                    m: nat, z: nat, x: Block, frag': nat, d': seq<byte>)
    requires Body(d, g, top, frag, used, free) && z <= |free| && m < |used|
    requires x.pos == top && 4 <= x.size && Shrunk(d, d', g.hdr, x, PosOf(free, z)) && d'[g.hdr + 7] == frag'
    requires forall i :: 0 <= i < |used| && i != m ==> MergedAt(used, x, i)
    requires Space(g.usable, x.End(), frag', Without(used, m), free[z..])
    ensures Body(d', g, x.End(), frag', Without(used, m), free[z..])
    ensures SameElse(d, d', g, top, Without(used, m))
  {
    var free' := free[z..];
    forall l | 0 <= l < |free'| ensures LinkAt(d', free', l) {
      assert LinkAt(d, free, l + z) && FreeAt(free', x.End(), g.usable, l);
      assert PosOf(free', l + 1) == PosOf(free, l + z + 1);
    }
    assert PosOf(free', 0) == PosOf(free, z);
    var rest := Without(used, m);
    forall j | 0 <= j < |rest| ensures SameBytes(d, d', rest[j]) {
      var i := if j < m then j else j + 1;
      assert UsedAt(used, top, g.usable, i) && MergedAt(used, x, i);
    }
  }

  /** The freed block at the start of the content area, with what touches it. */
  ghost predicate AtTop(g: Shape, top: nat, used: seq<Block>, free: seq<Block>, m: nat, z: nat, x: Block, frag': int) {
    && z <= |free| && m < |used| && x.pos == top && 4 <= x.size && x.End() <= g.usable
    && 0 <= frag' && PosOf(free, z) < 65536
    && (forall i :: 0 <= i < |used| && i != m ==> MergedAt(used, x, i))
    && Space(g.usable, x.End(), frag', Without(used, m), free[z..])
  }

  lemma ShrinkPlan(d: seq<byte>, g: Shape, top: nat, frag: nat, used: seq<Block>, free: seq<Block>, m: nat, k: nat)
    requires Body(d, g, top, frag, used, free) && m < |used| && Splits(free, used[m], k)
    requires JoinsLeft(free, used[m], k) ==> free[k - 1].End() <= used[m].pos
    requires JoinsRight(free, used[m], k) ==> used[m].End() <= free[k].pos
    requires top >= Merged(free, used[m], k).pos
    ensures AtTop(g, top, used, free, m, RightKept(free, used[m], k), Merged(free, used[m], k),
                  frag - Swallowed(free, used[m], k))
  {
    var z := RightKept(free, used[m], k);
    GiveSpace(g.usable, top, frag, used, free, m, k);
    MergedApart(g.usable, top, used, free, m, k);
    assert z < |free| ==> FreeAt(free, top, g.usable, z);
  }

  lemma ImageShrink(d: seq<byte>, g: Shape, top: nat, frag: nat, used: seq<Block>, free: seq<Block>,
                    m: nat, k: nat, d': seq<byte>)
    requires Body(d, g, top, frag, used, free) && m < |used| && Splits(free, used[m], k)
    requires JoinsLeft(free, used[m], k) ==> free[k - 1].End() <= used[m].pos
    requires JoinsRight(free, used[m], k) ==> used[m].End() <= free[k].pos
    requires top >= Merged(free, used[m], k).pos && Merged(free, used[m], k).pos + 3 < |d|
    requires 0 <= frag - Swallowed(free, used[m], k) < 256
    requires d' == ShrinkBytes(d, g.hdr, frag - Swallowed(free, used[m], k), Merged(free, used[m], k),
                               PosOf(free, RightKept(free, used[m], k)))
    ensures Body(d', g, Merged(free, used[m], k).End(), frag - Swallowed(free, used[m], k), Without(used, m),
                 free[RightKept(free, used[m], k)..])
    ensures NotZero(Get2(d', g.hdr + 5)) == Merged(free, used[m], k).End()
    ensures SameElse(d, d', g, top, Without(used, m))
  {
    ShrinkPlan(d, g, top, frag, used, free, m, k);
    ShrinkAt(d, g, top, frag, used, free, m, RightKept(free, used[m], k), Merged(free, used[m], k),
             frag - Swallowed(free, used[m], k), d');
  }

  lemma ShrinkAt(d: seq<byte>, g: Shape, top: nat, frag: nat, used: seq<Block>, free: seq<Block>,
                 m: nat, z: nat, x: Block, frag': nat, d': seq<byte>)
    requires Body(d, g, top, frag, used, free) && AtTop(g, top, used, free, m, z, x, frag')
    requires x.pos + 3 < |d| && frag' < 256
    requires d' == ShrinkBytes(d, g.hdr, frag', x, PosOf(free, z))
    ensures Body(d', g, x.End(), frag', Without(used, m), free[z..])
    ensures NotZero(Get2(d', g.hdr + 5)) == x.End()
    ensures SameElse(d, d', g, top, Without(used, m))
  {
    ShrinkFacts(d, g.hdr, frag', x, PosOf(free, z));
    ShrinkImage(d, g, top, frag, used, free, m, z, x, frag', d');
  }

  // ----- ... and with it

  lemma BodyOf(d: seq<byte>, g: Shape, top: nat, frag: nat, cells: seq<Block>, extra: seq<Block>, free: seq<Block>)
    requires Good(d, g, top, frag, cells, extra, free)
    ensures Body(d, g, top, frag, cells + extra, free) && cells + [] == cells
  {
  }

  /** Cells whose bytes and pointers have not changed. */
  lemma StillCells(d: seq<byte>, d': seq<byte>, g: Shape, top: nat, cells: seq<Block>, i: nat)
    requires g.Ok() && i < |cells| && CellAt(d, g, cells, i) && SameBytes(d, d', cells[i])
    requires g.off + 2 * |cells| <= top && forall j :: g.hdr + 8 <= j < top && j < |d| ==> d'[j] == d[j]
    ensures CellAt(d', g, cells, i) && Kept(d, d', g, cells, i)
  {
    KeptCell(d, d', g, cells, i);
  }

  /** A block has been taken, and nothing points to it yet. */
  lemma TakenFrom(d: seq<byte>, d': seq<byte>, g: Shape, top: nat, frag: nat, cells: seq<Block>, free: seq<Block>,
                  top': nat, frag': nat, b: Block, free': seq<Block>)
    requires Good(d, g, top, frag, cells, [], free) && Body(d', g, top', frag', cells + [b], free')
    requires SameElse(d, d', g, top, cells) && NotZero(Get2(d', g.hdr + 5)) == top'
    requires g.off + 2 * |cells| + 2 <= top'
    ensures Good(d', g, top', frag', cells, [b], free')
    ensures forall i :: 0 <= i < |cells| ==> Kept(d, d', g, cells, i)
  {
    forall i | 0 <= i < |cells| ensures CellAt(d', g, cells, i) && Kept(d, d', g, cells, i) {
      assert CellAt(d, g, cells, i);
      StillCells(d, d', g, top, cells, i);
    }
  }

  /** Cell m's space has been given back, but the cell-pointer array still lists it. */
  ghost predicate Freed(d: seq<byte>, g: Shape, top: nat, frag: nat, cells: seq<Block>, m: nat, free: seq<Block>)
    requires m < |cells|
  {
    && Body(d, g, top, frag, Without(cells, m), free) && g.off + 2 * |cells| <= top
    && Get2(d, g.hdr + 3) == |cells|
    && NotZero(Get2(d, g.hdr + 5)) == top
    && forall i :: 0 <= i < |cells| && i != m ==> CellAt(d, g, cells, i)
  }

  lemma GivenBack(d: seq<byte>, d': seq<byte>, g: Shape, top: nat, frag: nat, cells: seq<Block>, free: seq<Block>,
                  m: nat, top': nat, frag': nat, free': seq<Block>)
    requires Good(d, g, top, frag, cells, [], free) && m < |cells| && top <= top'
    requires Body(d', g, top', frag', Without(cells, m), free') && NotZero(Get2(d', g.hdr + 5)) == top'
    requires SameElse(d, d', g, top, Without(cells, m))
    ensures Freed(d', g, top', frag', cells, m, free')
    ensures forall i :: 0 <= i < |cells| && i != m ==> Kept(d, d', g, cells, i)
  {
    forall i | 0 <= i < |cells| && i != m ensures CellAt(d', g, cells, i) && Kept(d, d', g, cells, i) {
      assert CellAt(d, g, cells, i) && Without(cells, m)[if i < m then i else i - 1] == cells[i];
      StillCells(d, d', g, top, cells, i);
    }
  }

  // ----- the cell-pointer array

  /** Bytes changed below the content area only, leaving the list head, the content start and
      the fragment count alone. */
  ghost predicate SameContent(d: seq<byte>, d': seq<byte>, g: Shape, top: nat) {
    && |d'| == |d| == g.usable && g.hdr + 8 <= g.off <= g.usable
    && d'[g.hdr + 1] == d[g.hdr + 1] && d'[g.hdr + 2] == d[g.hdr + 2]
    && d'[g.hdr + 5] == d[g.hdr + 5] && d'[g.hdr + 6] == d[g.hdr + 6] && d'[g.hdr + 7] == d[g.hdr + 7]
    && forall j :: top <= j < |d| ==> d'[j] == d[j]
  }

  lemma ChainBelow(d: seq<byte>, d': seq<byte>, g: Shape, top: nat, frag: nat, used: seq<Block>, free: seq<Block>)
    requires g.Ok() && Chain(d, g.hdr + 1, free) && Space(g.usable, top, frag, used, free) && SameContent(d, d', g, top)
    ensures Chain(d', g.hdr + 1, free)
  {
    forall k | 0 <= k < |free| ensures SameHead(d, d', free, k) {
      assert LinkAt(d, free, k) && FreeAt(free, top, g.usable, k);
    }
    ChainFrame(d, d', g.hdr + 1, free);
  }

  /** Cell i of `cells` is cell j of `cells'`, with the same bytes in d and d'. */
  lemma CellRenamed(d: seq<byte>, d': seq<byte>, g: Shape, top: nat, cells: seq<Block>, i: nat, cells': seq<Block>,
                    j: nat)
    requires g.Ok() && i < |cells| && j < |cells'| && CellAt(d, g, cells, i) && UsedAt(cells, top, g.usable, i)
    requires SameContent(d, d', g, top) && cells'[j] == cells[i]
    requires g.off + 2 * j + 1 < |d'| && Get2(d', g.off + 2 * j) == cells[i].pos
    ensures CellAt(d', g, cells', j)
    ensures d'[cells[i].pos..cells[i].End()] == d[cells[i].pos..cells[i].End()]
  {
    SizeMoves(g.f, d, cells[i].pos, d', cells[i].pos, cells[i].size);
  }

  /** dropCell closes the gap in the pointer array. */
  function DropBytes(d: seq<byte>, g: Shape, n: nat, m: nat): (r: seq<byte>)
    requires m < n && g.hdr + 8 <= g.off && g.off + 2 * n <= |d|
  {
    Put2(Copied(d, g.off + 2 * m, d, g.off + 2 * m + 2, 2 * (n - 1 - m)), g.hdr + 3, n - 1)
  }

  lemma DropHeader(d: seq<byte>, g: Shape, n: nat, m: nat, top: nat)
    requires m < n && g.hdr + 8 <= g.off && g.off + 2 * n <= top <= |d| == g.usable <= 65536
    ensures SameContent(d, DropBytes(d, g, n, m), g, top)
    ensures Get2(DropBytes(d, g, n, m), g.hdr + 3) == n - 1
  {
  }

  /** Cell i of `cells` has become cell j of those that are left. */
  lemma DropPointer(d: seq<byte>, g: Shape, n: nat, m: nat, j: nat)
    requires m < n && g.hdr + 8 <= g.off && g.off + 2 * n <= |d| && j < n - 1
    ensures Get2(DropBytes(d, g, n, m), g.off + 2 * j) == Get2(d, g.off + 2 * if j < m then j else j + 1)
  {
  }

  lemma DropOne(d: seq<byte>, d': seq<byte>, g: Shape, top: nat, frag: nat, cells: seq<Block>, m: nat, free: seq<Block>,
                j: nat)
    requires m < |cells| && Freed(d, g, top, frag, cells, m, free) && d' == DropBytes(d, g, |cells|, m)
    requires SameContent(d, d', g, top) && j < |cells| - 1
    ensures CellAt(d', g, Without(cells, m), j) && SameBytes(d, d', Without(cells, m)[j])
  {
    var i := if j < m then j else j + 1;
    assert CellAt(d, g, cells, i) && UsedAt(Without(cells, m), top, g.usable, j);
    DropPointer(d, g, |cells|, m, j);
    assert UsedAt(cells, top, g.usable, i);
    CellRenamed(d, d', g, top, cells, i, Without(cells, m), j);
  }

  lemma ImageDrop(d: seq<byte>, g: Shape, top: nat, frag: nat, cells: seq<Block>, m: nat, free: seq<Block>,
                  d': seq<byte>)
    requires m < |cells| && Freed(d, g, top, frag, cells, m, free) && d' == DropBytes(d, g, |cells|, m)
    ensures Good(d', g, top, frag, Without(cells, m), [], free)
    ensures forall j :: 0 <= j < |cells| - 1 ==> SameBytes(d, d', Without(cells, m)[j])
  {
    var cells' := Without(cells, m);
    assert cells' + [] == cells';
    DropHeader(d, g, |cells|, m, top);
    ChainBelow(d, d', g, top, frag, cells', free);
    forall j | 0 <= j < |cells'| ensures CellAt(d', g, cells', j) && SameBytes(d, d', cells'[j]) {
      DropOne(d, d', g, top, frag, cells, m, free, j);
    }
  }

  /** insertCell writes the cell, opens the pointer array at position i and counts the cell. */
  function InsertBytes(d: seq<byte>, g: Shape, n: nat, i: nat, p: nat, cell: seq<byte>): (r: seq<byte>)
    requires i <= n && g.hdr + 8 <= g.off && g.off + 2 * n + 2 <= |d| && p + |cell| <= |d|
  {
    Put2(Put2(ShiftBytes(Copied(d, p, cell, 0, |cell|), g, n, i), g.off + 2 * i, p), g.hdr + 3, n + 1)
  }

  function ShiftBytes(d: seq<byte>, g: Shape, n: nat, i: nat): (r: seq<byte>)
    requires i <= n && g.off + 2 * n + 2 <= |d|
    ensures |r| == |d|
  {
    Copied(d, g.off + 2 * i + 2, d, g.off + 2 * i, 2 * (n - i))
  }

  lemma InsertPointer(d: seq<byte>, g: Shape, n: nat, i: nat, p: nat, cell: seq<byte>, j: nat)
    requires i <= n < 65535 && g.hdr + 8 <= g.off && g.off + 2 * n + 2 <= p && p + |cell| <= |d| <= 65536 && p < 65536
    requires j <= n
    ensures Get2(InsertBytes(d, g, n, i, p, cell), g.off + 2 * j) ==
      if j < i then Get2(d, g.off + 2 * j) else if j == i then p else Get2(d, g.off + 2 * (j - 1))
  {
  }

  lemma InsertHeader(d: seq<byte>, g: Shape, n: nat, i: nat, p: nat, cell: seq<byte>, top: nat)
    requires i <= n < 65535 && g.hdr + 8 <= g.off && g.off + 2 * n + 2 <= top <= p
    requires p + |cell| <= |d| == g.usable <= 65536
    ensures SameContent(Copied(d, p, cell, 0, |cell|), InsertBytes(d, g, n, i, p, cell), g, top)
    ensures SameContent(Copied(d, p, cell, 0, |cell|), InsertBytes(d, g, n, i, p, cell), g, p)
    ensures Get2(InsertBytes(d, g, n, i, p, cell), g.hdr + 3) == n + 1
  {
  }

  /** The new cell's bytes are in place. */
  lemma NewCell(d: seq<byte>, g: Shape, n: nat, i: nat, p: nat, cell: seq<byte>)
    requires i <= n < 65535 && g.hdr + 8 <= g.off && g.off + 2 * n + 2 <= p && p + |cell| <= |d| == g.usable <= 65536
    requires p < 65536
    requires LocalSize(g.f) && g.f(cell) == |cell|
    ensures InsertBytes(d, g, n, i, p, cell)[p..p + |cell|] == cell
    ensures g.f(InsertBytes(d, g, n, i, p, cell)[p..]) == |cell|
  {
    var d' := InsertBytes(d, g, n, i, p, cell);
    InsertHeader(d, g, n, i, p, cell, p);
    assert d'[p..p + |cell|] == cell;
    assert cell[0..] == cell && cell[0..|cell|] == cell;
    SizeMoves(g.f, cell, 0, d', p, |cell|);
  }

  /** Pointer j after the insertion at i. */
  ghost predicate PointerAt(d: seq<byte>, d': seq<byte>, g: Shape, i: nat, p: nat, j: nat) {
    && g.off + 2 * j + 1 < |d| == |d'|
    && Get2(d', g.off + 2 * j) ==
       if j < i then Get2(d, g.off + 2 * j) else if j == i then p else Get2(d, g.off + 2 * (j - 1))
  }

  /** What InsertBytes does, in two stages: d1 has the cell's bytes, d' also its pointer. */
  ghost predicate InsertStages(d: seq<byte>, d1: seq<byte>, d': seq<byte>, g: Shape, n: nat, i: nat, b: Block,
                               cell: seq<byte>, top: nat) {
    && b.End() <= |d| && b.size == |cell|
    && d1 == Copied(d, b.pos, cell, 0, |cell|)
    && SameContent(d1, d', g, top) && Get2(d', g.hdr + 3) == n + 1
    && (forall j :: 0 <= j <= n ==> PointerAt(d, d', g, i, b.pos, j))
    && d'[b.pos..b.End()] == cell && g.f(d'[b.pos..]) == |cell|
  }

  lemma InsertDoes(d: seq<byte>, g: Shape, n: nat, i: nat, b: Block, cell: seq<byte>, top: nat)
    requires i <= n < 65535 && g.hdr + 8 <= g.off && g.off + 2 * n + 2 <= top <= b.pos
    requires b.End() <= |d| == g.usable <= 65536
    requires 4 <= b.size == |cell| && LocalSize(g.f) && g.f(cell) == |cell|
    ensures InsertStages(d, Copied(d, b.pos, cell, 0, |cell|),
                         InsertBytes(d, g, n, i, b.pos, cell), g, n, i, b, cell, top)
  {
    var d' := InsertBytes(d, g, n, i, b.pos, cell);
    InsertHeader(d, g, n, i, b.pos, cell, top);
    NewCell(d, g, n, i, b.pos, cell);
    forall j | 0 <= j <= n ensures PointerAt(d, d', g, i, b.pos, j) {
      InsertPointer(d, g, n, i, b.pos, cell, j);
    }
  }

  lemma InsertOne(d: seq<byte>, d1: seq<byte>, d': seq<byte>, g: Shape, top: nat, frag: nat, cells: seq<Block>,
                  b: Block, free: seq<Block>, i: nat, cell: seq<byte>, j: nat)
    requires Good(d, g, top, frag, cells, [b], free) && i <= |cells| && j < |cells| && top <= b.pos
    requires InsertStages(d, d1, d', g, |cells|, i, b, cell, top)
    ensures CellAt(d', g, Inserted(cells, i, b), if j < i then j else j + 1) && SameBytes(d, d', cells[j])
  {
    var h := if j < i then j else j + 1;
    CellRegions(g, top, frag, cells, [b], free);
    assert CellAt(d, g, cells, j) && UsedAt(cells, top, g.usable, j);
    assert MergedAt(cells, [b][0], j);
    assert PointerAt(d, d', g, i, b.pos, h);
    KeptCell(d, d1, g, cells, j);
    CellRenamed(d1, d', g, top, cells, j, Inserted(cells, i, b), h);
  }

  lemma InsertChain(d: seq<byte>, d1: seq<byte>, d': seq<byte>, g: Shape, top: nat, frag: nat, cells: seq<Block>,
                    b: Block, free: seq<Block>, i: nat, cell: seq<byte>)
    requires Good(d, g, top, frag, cells, [b], free) && i <= |cells| && top <= b.pos
    requires Space(g.usable, top, frag, Inserted(cells, i, b), free)
    requires InsertStages(d, d1, d', g, |cells|, i, b, cell, top)
    ensures Chain(d', g.hdr + 1, free)
  {
    forall k | 0 <= k < |free| ensures SameHead(d, d1, free, k) {
      assert LinkAt(d, free, k) && FreeAt(free, top, g.usable, k) && CrossAt(Inserted(cells, i, b), free, i, k);
    }
    ChainFrame(d, d1, g.hdr + 1, free);
    ChainBelow(d1, d', g, top, frag, Inserted(cells, i, b), free);
  }

  lemma ImageInsert(d: seq<byte>, d1: seq<byte>, d': seq<byte>, g: Shape, top: nat, frag: nat, cells: seq<Block>,
                    b: Block, free: seq<Block>, i: nat, cell: seq<byte>)
    requires Good(d, g, top, frag, cells, [b], free) && i <= |cells| && top <= b.pos
    requires InsertStages(d, d1, d', g, |cells|, i, b, cell, top)
    ensures Good(d', g, top, frag, Inserted(cells, i, b), [], free)
    ensures forall j :: 0 <= j < |cells| ==> SameBytes(d, d', cells[j])
  {
    var cells' := Inserted(cells, i, b);
    assert cells' + [] == cells';
    SpaceReordered(g.usable, top, frag, cells, b, free, i);
    InsertChain(d, d1, d', g, top, frag, cells, b, free, i, cell);
    forall j | 0 <= j < |cells| ensures SameBytes(d, d', cells[j]) {
      InsertOne(d, d1, d', g, top, frag, cells, b, free, i, cell, j);
    }
    forall h | 0 <= h < |cells'| ensures CellAt(d', g, cells', h) {
      if h != i {
        InsertOne(d, d1, d', g, top, frag, cells, b, free, i, cell, if h < i then h else h - 1);
      } else {
        assert PointerAt(d, d', g, i, b.pos, i);
      }
    }
  }

  // ----- a page emptied

  lemma ImageEmpty(d: seq<byte>, g: Shape)
    requires g.Ok() && |d| == g.usable && Get2(d, g.hdr + 1) == 0 && Get2(d, g.hdr + 3) == 0
    requires d[g.hdr + 7] == 0 && NotZero(Get2(d, g.hdr + 5)) == g.usable
    ensures Good(d, g, g.usable, 0, [], [], [])
  {
    var none: seq<Block> := [];
    assert none + [] == none;
  }

  // ----- the cells as byte strings

  lemma CellsInside(d: seq<byte>, g: Shape, top: nat, frag: nat, cells: seq<Block>, extra: seq<Block>, free: seq<Block>)
    requires Good(d, g, top, frag, cells, extra, free)
    ensures forall i :: 0 <= i < |cells| ==> cells[i].End() <= |d|
  {
    forall i | 0 <= i < |cells| ensures cells[i].End() <= |d| {
      assert CellAt(d, g, cells, i);
    }
  }

  /** The bytes of each cell. */
  ghost function CellBytes(d: seq<byte>, cells: seq<Block>): (r: seq<seq<byte>>)
    requires forall i :: 0 <= i < |cells| ==> cells[i].End() <= |d|
    ensures |r| == |cells|
    ensures forall i {:trigger r[i]} :: 0 <= i < |cells| ==>
      cells[i].End() <= |d| && r[i] == d[cells[i].pos..cells[i].End()]
  {
    seq(|cells|, i requires 0 <= i < |cells| && cells[i].End() <= |d| => d[cells[i].pos..cells[i].End()])
  }

  ghost function TotalLength(cs: seq<seq<byte>>): (n: nat) {
    if cs == [] then 0 else |cs[0]| + TotalLength(cs[1..])
  }

  lemma {:induction false} SumIsLength(d: seq<byte>, cells: seq<Block>)
    requires forall i :: 0 <= i < |cells| ==> cells[i].End() <= |d|
    ensures TotalLength(CellBytes(d, cells)) == Sum(cells)
  {
    if cells == [] {
    } else {
      SumIsLength(d, cells[1..]);
      assert CellBytes(d, cells)[1..] == CellBytes(d, cells[1..]);
    }
  }
}
