/** How the layout of a page is written in its bytes: the freeblock list and the cell-pointer
    array. */
module PageBytes {
  import opened Bytes
  import opened Blocks
  import opened PageLayout

  /** The position of freeblock k, or 0 past the end of the list. */
  ghost function PosOf(free: seq<Block>, k: nat): nat {
    if k < |free| then free[k].pos else 0
  }

  /** Where the pointer to freeblock k is stored; `at` is the list head in the page header. */
  ghost function LinkAddr(at: nat, free: seq<Block>, k: nat): nat
    requires k <= |free|
  {
    if k == 0 then at else free[k - 1].pos
  }

  /** The 4-byte header of freeblock k. */
  ghost predicate LinkAt(d: seq<byte>, free: seq<Block>, k: nat)
    requires k < |free|
  {
    && free[k].pos + 3 < |d|
    && Get2(d, free[k].pos) == PosOf(free, k + 1)
    && Get2(d, free[k].pos + 2) == free[k].size
  }

  ghost predicate Chain(d: seq<byte>, at: nat, free: seq<Block>) {
    && at + 1 < |d| && Get2(d, at) == PosOf(free, 0)
    && forall k :: 0 <= k < |free| ==> LinkAt(d, free, k)
  }

  /** Freeblock headers are apart from each other and from the list head. */
  ghost predicate Headers(at: nat, free: seq<Block>) {
    && (forall k :: 0 <= k < |free| ==> HeadAt(at, free, k))
    && (forall k, l :: 0 <= k < l < |free| ==> SortedAt(free, k, l))
  }

  ghost predicate HeadAt(at: nat, free: seq<Block>, k: nat)
    requires k < |free|
  {
    at + 2 <= free[k].pos && 4 <= free[k].size && free[k].End() <= 65536
  }

  /** Bytes outside the list head and the freeblock headers do not matter to the list. */
  lemma ChainFrame(d: seq<byte>, d': seq<byte>, at: nat, free: seq<Block>)
    requires Chain(d, at, free) && |d'| == |d|
    requires d'[at] == d[at] && d'[at + 1] == d[at + 1]
    requires forall k :: 0 <= k < |free| ==> SameHead(d, d', free, k)
    ensures Chain(d', at, free)
  {
    forall k | 0 <= k < |free| ensures LinkAt(d', free, k) {
      assert SameHead(d, d', free, k) && LinkAt(d, free, k);
    }
  }

  ghost predicate SameHead(d: seq<byte>, d': seq<byte>, free: seq<Block>, k: nat)
    requires k < |free|
  {
    && free[k].pos + 3 < |d| == |d'|
    && Get2(d', free[k].pos) == Get2(d, free[k].pos)
    && Get2(d', free[k].pos + 2) == Get2(d, free[k].pos + 2)
  }

  /** Writing at p leaves the header of a freeblock elsewhere alone. */
  lemma HeadKept(d: seq<byte>, p: nat, v: nat, free: seq<Block>, k: nat)
    requires p + 1 < |d| && k < |free| && free[k].pos + 3 < |d|
    requires p + 2 <= free[k].pos || free[k].pos + 4 <= p
    ensures SameHead(d, Put2(d, p, v), free, k)
  {
  }

  /** Taking freeblock k off the list. */
  lemma Unlinked(d: seq<byte>, at: nat, free: seq<Block>, k: nat)
    requires Chain(d, at, free) && Headers(at, free) && k < |free|
    ensures LinkAddr(at, free, k) + 1 < |d|
    ensures Chain(Put2(d, LinkAddr(at, free, k), PosOf(free, k + 1)), at, Without(free, k))
  {
    assert k > 0 ==> LinkAt(d, free, k - 1) && HeadAt(at, free, k - 1);
    assert k + 1 < |free| ==> HeadAt(at, free, k + 1);
    var p := LinkAddr(at, free, k);
    var d', free' := Put2(d, p, PosOf(free, k + 1)), Without(free, k);
    forall l | 0 <= l < |free'| ensures LinkAt(d', free', l) {
      var o := if l < k then l else l + 1;
      assert LinkAt(d, free, o) && HeadAt(at, free, o);
      if o != k - 1 {
        assert if o < k then SortedAt(free, o, k - 1) else k == 0 || SortedAt(free, k - 1, o);
        HeadKept(d, p, PosOf(free, k + 1), free, o);
      }
    }
    assert |free'| > 0 && k > 0 ==> free'[0] == free[0];
  }

  /** Freeblock k keeps only its first x bytes. */
  lemma Trimmed(d: seq<byte>, at: nat, free: seq<Block>, k: nat, x: nat)
    requires Chain(d, at, free) && Headers(at, free) && k < |free| && 4 <= x <= free[k].size
    ensures free[k].pos + 3 < |d|
    ensures Chain(Put2(d, free[k].pos + 2, x), at, free[k := Block(free[k].pos, x)])
  {
    assert LinkAt(d, free, k) && HeadAt(at, free, k);
    var d', free' := Put2(d, free[k].pos + 2, x), free[k := Block(free[k].pos, x)];
    forall l | 0 <= l < |free'| ensures LinkAt(d', free', l) {
      assert LinkAt(d, free, l);
      if l != k {
        assert if l < k then SortedAt(free, l, k) else SortedAt(free, k, l);
        assert HeadAt(at, free, l);
        HeadKept(d, free[k].pos + 2, x, free, l);
      }
    }
    assert PosOf(free', 0) == PosOf(free, 0);
  }

  /** Block x takes the place of freeblocks a .. z: its header is written, and the pointer to
      freeblock a now leads to x. */
  ghost predicate Relinked(d: seq<byte>, d': seq<byte>, at: nat, free: seq<Block>, a: nat, z: nat, x: Block)
    requires a <= z <= |free|
  {
    && at + 1 < |d| == |d'| && x.pos + 3 < |d| && LinkAddr(at, free, a) + 1 < |d|
    && Get2(d', LinkAddr(at, free, a)) == x.pos
    && Get2(d', x.pos) == PosOf(free, z)
    && Get2(d', x.pos + 2) == x.size
    && (forall l :: 0 <= l < |free| && (l < a - 1 || z <= l) ==> SameHead(d, d', free, l))
    && (a > 0 ==> free[a - 1].pos + 3 < |d| && Get2(d', free[a - 1].pos + 2) == Get2(d, free[a - 1].pos + 2))
    && (a > 0 ==> Get2(d', at) == Get2(d, at))
  }

  lemma ReplacedChain(d: seq<byte>, d': seq<byte>, at: nat, free: seq<Block>, a: nat, z: nat, x: Block)
    requires Chain(d, at, free) && a <= z <= |free| && Relinked(d, d', at, free, a, z, x)
    ensures Chain(d', at, Replaced(free, a, z, x))
  {
    var free' := Replaced(free, a, z, x);
    forall l | 0 <= l < |free'| ensures LinkAt(d', free', l) {
      var o := if l < a then l else l - a - 1 + z;
      if l != a {
        assert LinkAt(d, free, o);
        assert l < a - 1 || a < l ==> SameHead(d, d', free, o);
      }
      assert PosOf(free', l + 1) == if l + 1 < a then free[l + 1].pos else if l + 1 == a then x.pos else PosOf(free,
                   l - a + z);
    }
    assert PosOf(free', 0) == if a == 0 then x.pos else free[0].pos;
  }
}
