/** The layout of a b-tree page's content area: cells, freeblocks and fragments.

    `used` lists the cells (and a block just allocated), `free` the freeblocks in the order of
    the on-page list. */
module PageLayout {
  import opened Bytes
  import opened Blocks

  ghost predicate UsedAt(used: seq<Block>, top: nat, usable: nat, i: nat)
    requires i < |used|
  {
    4 <= used[i].size && Within(used[i], top, usable)
  }

  ghost predicate FreeAt(free: seq<Block>, top: nat, usable: nat, k: nat)
    requires k < |free|
  {
    4 <= free[k].size && top < free[k].pos && free[k].End() <= usable
  }

  ghost predicate SortedAt(free: seq<Block>, k: nat, l: nat)
    requires k < |free| && l < |free|
  {
    free[k].End() + 4 <= free[l].pos
  }

  ghost predicate CrossAt(used: seq<Block>, free: seq<Block>, i: nat, k: nat)
    requires i < |used| && k < |free|
  {
    Apart(used[i], free[k])
  }

  /** Cells and freeblocks lie in the content area and are disjoint; the freeblocks are in
      ascending order, at least 4 bytes long and at least 4 bytes apart. */
  ghost predicate Regions(usable: nat, top: nat, used: seq<Block>, free: seq<Block>) {
    && top <= usable
    && (forall i :: 0 <= i < |used| ==> UsedAt(used, top, usable, i))
    && (forall k :: 0 <= k < |free| ==> FreeAt(free, top, usable, k))
    && (forall i, j :: 0 <= i < j < |used| ==> ApartAt(used, i, j))
    && (forall k, l :: 0 <= k < l < |free| ==> SortedAt(free, k, l))
    && (forall i, k :: 0 <= i < |used| && 0 <= k < |free| ==> CrossAt(used, free, i, k))
  }

  /** ... and they fill the content area up to `frag` bytes, at most 60. */
  ghost predicate Space(usable: nat, top: nat, frag: nat, used: seq<Block>, free: seq<Block>) {
    && Regions(usable, top, used, free)
    && frag + Sum(used) + Sum(free) == usable - top
    && frag <= 60
  }

  /** The fragment count is exact: it is the number of bytes of the content area that belong
      to neither a cell nor a freeblock. */
  lemma FragmentsExact(usable: nat, top: nat, frag: nat, used: seq<Block>, free: seq<Block>)
    requires Space(usable, top, frag, used, free)
    ensures |Uncovered(used + free, top, usable)| == frag
  {
    RoomLeft(usable, top, used, free);
  }

  /** What the regions leave of the content area. */
  lemma RoomLeft(usable: nat, top: nat, used: seq<Block>, free: seq<Block>)
    requires Regions(usable, top, used, free)
    ensures |Uncovered(used + free, top, usable)| == usable - top - Sum(used) - Sum(free)
  {
    AllDisjoint(usable, top, used, free);
    SumAppend(used, free);
    ExactCover(used + free, top, usable);
  }

  lemma AllDisjoint(usable: nat, top: nat, used: seq<Block>, free: seq<Block>)
    requires Regions(usable, top, used, free)
    ensures Disjoint(used + free, top, usable)
  {
    var all := used + free;
    forall i | 0 <= i < |all| ensures Within(all[i], top, usable) {
      if i < |used| {
        assert UsedAt(used, top, usable, i);
      } else {
        assert FreeAt(free, top, usable, i - |used|);
      }
    }
    forall i, j | 0 <= i < j < |all| ensures ApartAt(all, i, j) {
      if j < |used| {
        assert ApartAt(used, i, j);
      } else if i < |used| {
        assert CrossAt(used, free, i, j - |used|);
      } else {
        assert SortedAt(free, i - |used|, j - |used|);
      }
    }
  }

  // ----- taking space

  /** Adding a block apart from everything else. */
  lemma AddUsed(usable: nat, top: nat, frag: nat, used: seq<Block>, free: seq<Block>, top': nat, frag': nat,
                free': seq<Block>, b: Block)
    requires Space(usable, top, frag, used, free) && frag' <= 60
    requires top' <= top && (forall k :: 0 <= k < |free'| ==> FreeAt(free', top', usable, k))
    requires forall k, l :: 0 <= k < l < |free'| ==> SortedAt(free', k, l)
    requires forall i, k :: 0 <= i < |used| && 0 <= k < |free'| ==> CrossAt(used, free', i, k)
    requires 4 <= b.size && Within(b, top', usable)
    requires forall i :: 0 <= i < |used| ==> Apart(used[i], b)
    requires forall k :: 0 <= k < |free'| ==> Apart(b, free'[k])
    requires frag' + Sum(used) + b.size + Sum(free') == usable - top'
    ensures Space(usable, top', frag', used + [b], free')
  {
    var used' := used + [b];
    SumAppend(used, [b]);
    SumOne(b);
    forall i | 0 <= i < |used'| ensures UsedAt(used', top', usable, i) {
      assert i < |used| ==> UsedAt(used, top, usable, i);
    }
    forall i, j | 0 <= i < j < |used'| ensures ApartAt(used', i, j) {
      assert j < |used| ==> ApartAt(used, i, j);
    }
    forall i, k | 0 <= i < |used'| && 0 <= k < |free'| ensures CrossAt(used', free', i, k) {
      assert i < |used| ==> CrossAt(used, free', i, k);
    }
  }

  /** n bytes from the gap. */
  lemma TakeGap(usable: nat, top: nat, frag: nat, used: seq<Block>, free: seq<Block>, n: nat)
    requires Space(usable, top, frag, used, free) && 4 <= n <= top
    ensures Space(usable, top - n, frag, used + [Block(top - n, n)], free)
  {
    var b := Block(top - n, n);
    forall k | 0 <= k < |free| ensures FreeAt(free, top - n, usable, k) && Apart(b, free[k]) {
      assert FreeAt(free, top, usable, k);
    }
    forall i | 0 <= i < |used| ensures Apart(used[i], b) {
      assert UsedAt(used, top, usable, i);
    }
    AddUsed(usable, top, frag, used, free, top - n, frag, free, b);
  }

  /** The whole of freeblock k, up to x < 4 bytes that become a fragment. */
  lemma TakeWhole(usable: nat, top: nat, frag: nat, used: seq<Block>, free: seq<Block>, k: nat, n: nat, x: nat)
    requires Space(usable, top, frag, used, free) && k < |free|
    requires 4 <= n && free[k].size == n + x && x < 4 && frag + x <= 60
    ensures Space(usable, top, frag + x, used + [Block(free[k].pos + x, n)], free[..k] + free[k + 1..])
  {
    var b, free' := Block(free[k].pos + x, n), free[..k] + free[k + 1..];
    SumWithout(free, k);
    assert FreeAt(free, top, usable, k);
    forall l | 0 <= l < |free'| ensures FreeAt(free', top, usable, l) && Apart(b, free'[l]) {
      var o := if l < k then l else l + 1;
      assert FreeAt(free, top, usable, o);
      assert if o < k then SortedAt(free, o, k) else SortedAt(free, k, o);
    }
    forall l, m | 0 <= l < m < |free'| ensures SortedAt(free', l, m) {
      assert SortedAt(free, if l < k then l else l + 1, if m < k then m else m + 1);
    }
    forall i, l | 0 <= i < |used| && 0 <= l < |free'| ensures CrossAt(used, free', i, l) {
      assert CrossAt(used, free, i, if l < k then l else l + 1);
    }
    forall i | 0 <= i < |used| ensures Apart(used[i], b) {
      assert CrossAt(used, free, i, k);
    }
    AddUsed(usable, top, frag, used, free, top, frag + x, free', b);
  }

  /** The last n bytes of freeblock k, which keeps its first x >= 4. */
  lemma TakeTail(usable: nat, top: nat, frag: nat, used: seq<Block>, free: seq<Block>, k: nat, n: nat, x: nat)
    requires Space(usable, top, frag, used, free) && k < |free|
    requires 4 <= n && free[k].size == n + x && 4 <= x
    ensures Space(usable, top, frag, used + [Block(free[k].pos + x, n)], free[k := Block(free[k].pos, x)])
  {
    var b, free' := Block(free[k].pos + x, n), free[k := Block(free[k].pos, x)];
    SumWithout(free, k);
    SumWithout(free', k);
    assert free'[..k] + free'[k + 1..] == free[..k] + free[k + 1..];
    assert FreeAt(free, top, usable, k);
    forall l | 0 <= l < |free'| ensures FreeAt(free', top, usable, l) && Apart(b, free'[l]) {
      assert FreeAt(free, top, usable, l);
      assert if l < k then SortedAt(free, l, k) else l == k || SortedAt(free, k, l);
    }
    forall l, m | 0 <= l < m < |free'| ensures SortedAt(free', l, m) {
      assert SortedAt(free, l, m);
    }
    forall i, l | 0 <= i < |used| && 0 <= l < |free'| ensures CrossAt(used, free', i, l) {
      assert CrossAt(used, free, i, l);
    }
    forall i | 0 <= i < |used| ensures Apart(used[i], b) {
      assert CrossAt(used, free, i, k);
    }
    AddUsed(usable, top, frag, used, free, top, frag, free', b);
  }

  // ----- giving space back

  function Without(bs: seq<Block>, m: nat): (r: seq<Block>)
    requires m < |bs|
  {
    bs[..m] + bs[m + 1..]
  }

  /** Freeblock k is the first one after block b. */
  ghost predicate Splits(free: seq<Block>, b: Block, k: nat) {
    && k <= |free|
    && (forall l :: 0 <= l < k ==> free[l].pos < b.pos)
    && (forall l :: k <= l < |free| ==> b.pos < free[l].pos)
  }

  /** The freeblock before, or after, is so close that what lies between is a fragment. */
  predicate JoinsLeft(free: seq<Block>, b: Block, k: nat)
    requires k <= |free|
  {
    k > 0 && free[k - 1].End() + 3 >= b.pos
  }

  predicate JoinsRight(free: seq<Block>, b: Block, k: nat)
    requires k <= |free|
  {
    k < |free| && b.End() + 3 >= free[k].pos
  }

  /** The freed block with its neighbours. */
  function Merged(free: seq<Block>, b: Block, k: nat): (m: Block)
    requires k <= |free|
    requires JoinsLeft(free, b, k) ==> free[k - 1].pos <= b.pos
    requires JoinsRight(free, b, k) ==> b.pos <= free[k].End()
  {
    var lo := if JoinsLeft(free, b, k) then free[k - 1].pos else b.pos;
    var hi := if JoinsRight(free, b, k) then free[k].End() else b.End();
    Block(lo, hi - lo)
  }

  ghost predicate MergedAt(used: seq<Block>, x: Block, i: nat)
    requires i < |used|
  {
    Apart(used[i], x)
  }

  lemma MergedApart(usable: nat, top: nat, used: seq<Block>, free: seq<Block>, m: nat, k: nat)
    requires Regions(usable, top, used, free) && m < |used| && Splits(free, used[m], k)
    ensures JoinsLeft(free, used[m], k) ==> free[k - 1].End() <= used[m].pos
    ensures JoinsRight(free, used[m], k) ==> used[m].End() <= free[k].pos
    ensures Within(Merged(free, used[m], k), top, usable) && 4 <= Merged(free, used[m], k).size
    ensures forall i :: 0 <= i < |used| && i != m ==> MergedAt(used, Merged(free, used[m], k), i)
  {
    assert UsedAt(used, top, usable, m);
    if k > 0 {
      assert CrossAt(used, free, m, k - 1) && FreeAt(free, top, usable, k - 1);
    }
    if k < |free| {
      assert CrossAt(used, free, m, k) && FreeAt(free, top, usable, k);
    }
    forall i | 0 <= i < |used| && i != m
      ensures MergedAt(used, Merged(free, used[m], k), i)
    {
      assert UsedAt(used, top, usable, i);
      assert if i < m then ApartAt(used, i, m) else ApartAt(used, m, i);
      assert k > 0 ==> CrossAt(used, free, i, k - 1);
      assert k < |free| ==> CrossAt(used, free, i, k);
    }
  }

  function LeftKept(free: seq<Block>, b: Block, k: nat): (i: nat)
    requires k <= |free|
    ensures i <= k
  {
    if JoinsLeft(free, b, k) then k - 1 else k
  }

  function RightKept(free: seq<Block>, b: Block, k: nat): (i: nat)
    requires k <= |free|
    ensures k <= i <= |free|
  {
    if JoinsRight(free, b, k) then k + 1 else k
  }

  /** Fragment bytes swallowed by the merge. */
  function Swallowed(free: seq<Block>, b: Block, k: nat): (n: int)
    requires k <= |free|
  {
    (if JoinsLeft(free, b, k) then b.pos - free[k - 1].End() else 0)
    + if JoinsRight(free, b, k) then free[k].pos - b.End() else 0
  }

  /** The freeblocks after block b was given back. */
  ghost function FreeAfter(free: seq<Block>, b: Block, k: nat): seq<Block>
    requires k <= |free|
    requires JoinsLeft(free, b, k) ==> free[k - 1].pos <= b.pos
    requires JoinsRight(free, b, k) ==> b.pos <= free[k].End()
  {
    Replaced(free, LeftKept(free, b, k), RightKept(free, b, k), Merged(free, b, k))
  }

  lemma UsedWithout(usable: nat, top: nat, used: seq<Block>, free: seq<Block>, m: nat)
    requires Regions(usable, top, used, free) && m < |used|
    ensures forall i, j :: 0 <= i < j < |Without(used, m)| ==> ApartAt(Without(used, m), i, j)
    ensures forall i :: 0 <= i < |Without(used, m)| ==> UsedAt(Without(used, m), top, usable, i)
  {
    var used' := Without(used, m);
    forall i | 0 <= i < |used'| ensures UsedAt(used', top, usable, i) {
      assert UsedAt(used, top, usable, if i < m then i else i + 1);
    }
    forall i, j | 0 <= i < j < |used'| ensures ApartAt(used', i, j) {
      assert ApartAt(used, if i < m then i else i + 1, if j < m then j else j + 1);
    }
  }

  /** A freeblock other than the merged ones keeps its distance to the merged block. */
  lemma MergedSorted(usable: nat, top: nat, used: seq<Block>, free: seq<Block>, m: nat, k: nat, l: nat)
    requires Regions(usable, top, used, free) && m < |used| && Splits(free, used[m], k)
    requires l < |free|
    ensures JoinsLeft(free, used[m], k) ==> free[k - 1].pos <= used[m].pos
    ensures JoinsRight(free, used[m], k) ==> used[m].pos <= free[k].End()
    ensures l < LeftKept(free, used[m], k) ==> free[l].End() + 4 <= Merged(free, used[m], k).pos
    ensures RightKept(free, used[m], k) <= l ==> Merged(free, used[m], k).End() + 4 <= free[l].pos
  {
    MergedApart(usable, top, used, free, m, k);
    assert CrossAt(used, free, m, l) && UsedAt(used, top, usable, m) && FreeAt(free, top, usable, l);
    if l < k - 1 {
      assert SortedAt(free, l, k - 1) && FreeAt(free, top, usable, k - 1) && CrossAt(used, free, m, k - 1);
    }
    if k < l {
      assert SortedAt(free, k, l) && FreeAt(free, top, usable, k) && CrossAt(used, free, m, k);
    }
  }

  /** Freeblock l keeps its distance to x, which takes the place of free[a..z]. */
  ghost predicate ClearAt(free: seq<Block>, a: nat, z: nat, x: Block, l: nat)
    requires l < |free|
  {
    (l < a ==> free[l].End() + 4 <= x.pos) && (z <= l ==> x.End() + 4 <= free[l].pos)
  }

  ghost function Replaced(free: seq<Block>, a: nat, z: nat, x: Block): seq<Block>
    requires a <= z <= |free|
  {
    free[..a] + [x] + free[z..]
  }

  lemma ReplacedFree(usable: nat, top: nat, used: seq<Block>, free: seq<Block>, a: nat, z: nat, x: Block)
    requires Regions(usable, top, used, free) && a <= z <= |free|
    requires 4 <= x.size && top < x.pos && x.End() <= usable
    requires forall l :: 0 <= l < |free| ==> ClearAt(free, a, z, x, l)
    ensures forall l :: 0 <= l < |Replaced(free, a, z, x)| ==> FreeAt(Replaced(free, a, z, x), top, usable, l)
    ensures forall l, h :: 0 <= l < h < |Replaced(free, a, z, x)| ==> SortedAt(Replaced(free, a, z, x), l, h)
  {
    var free' := Replaced(free, a, z, x);
    forall l | 0 <= l < |free'| ensures FreeAt(free', top, usable, l) {
      assert l < a ==> FreeAt(free, top, usable, l);
      assert a < l ==> FreeAt(free, top, usable, l - a - 1 + z);
    }
    forall l, h | 0 <= l < h < |free'| ensures SortedAt(free', l, h) {
      if l == a {
        assert ClearAt(free, a, z, x, h - a - 1 + z);
      } else if h == a {
        assert ClearAt(free, a, z, x, l);
      } else {
        assert SortedAt(free, if l < a then l else l - a - 1 + z, if h < a then h else h - a - 1 + z);
      }
    }
  }

  lemma ReplacedCross(usable: nat, top: nat, used: seq<Block>, free: seq<Block>, m: nat, a: nat, z: nat, x: Block)
    requires Regions(usable, top, used, free) && a <= z <= |free| && m < |used|
    requires forall i :: 0 <= i < |used| && i != m ==> MergedAt(used, x, i)
    ensures forall i, l :: 0 <= i < |Without(used, m)| && 0 <= l < |Replaced(free, a, z, x)| ==>
      CrossAt(Without(used, m), Replaced(free, a, z, x), i, l)
  {
    var used', free' := Without(used, m), Replaced(free, a, z, x);
    forall i, l | 0 <= i < |used'| && 0 <= l < |free'| ensures CrossAt(used', free', i, l) {
      var o := if i < m then i else i + 1;
      assert MergedAt(used, x, o);
      assert l < a ==> CrossAt(used, free, o, l);
      assert a < l ==> CrossAt(used, free, o, l - a - 1 + z);
    }
  }

  /** The freed block does not reach down to the content area's start: it joins the list. */
  lemma GiveRegions(usable: nat, top: nat, used: seq<Block>, free: seq<Block>, m: nat, k: nat)
    requires Regions(usable, top, used, free) && m < |used| && Splits(free, used[m], k)
    requires JoinsLeft(free, used[m], k) ==> free[k - 1].pos <= used[m].pos
    requires JoinsRight(free, used[m], k) ==> used[m].pos <= free[k].End()
    requires top < Merged(free, used[m], k).pos
    ensures Regions(usable, top, Without(used, m), FreeAfter(free, used[m], k))
  {
    var a, z := LeftKept(free, used[m], k), RightKept(free, used[m], k);
    var x := Merged(free, used[m], k);
    UsedWithout(usable, top, used, free, m);
    MergedApart(usable, top, used, free, m, k);
    forall l | 0 <= l < |free| ensures ClearAt(free, a, z, x, l) {
      MergedSorted(usable, top, used, free, m, k, l);
    }
    ReplacedFree(usable, top, used, free, a, z, x);
    ReplacedCross(usable, top, used, free, m, a, z, x);
  }

  /** The freed block starts the content area: the area shrinks. */
  lemma GiveTop(usable: nat, top: nat, used: seq<Block>, free: seq<Block>, m: nat, k: nat)
    requires Regions(usable, top, used, free) && m < |used| && Splits(free, used[m], k)
    requires JoinsLeft(free, used[m], k) ==> free[k - 1].pos <= used[m].pos
    requires JoinsRight(free, used[m], k) ==> used[m].pos <= free[k].End()
    requires top == Merged(free, used[m], k).pos
    ensures k == 0 && used[m].pos == top
    ensures Regions(usable, Merged(free, used[m], k).End(), Without(used, m), free[RightKept(free, used[m], k)..])
  {
    assert k > 0 ==> FreeAt(free, top, usable, k - 1);
    var used', z := Without(used, m), RightKept(free, used[m], k);
    var free', top' := free[z..], Merged(free, used[m], k).End();
    UsedWithout(usable, top, used, free, m);
    MergedApart(usable, top, used, free, m, k);
    forall i | 0 <= i < |used'| ensures UsedAt(used', top', usable, i) {
      assert UsedAt(used', top, usable, i);
      assert MergedAt(used, Merged(free, used[m], k), if i < m then i else i + 1);
    }
    forall l | 0 <= l < |free'| ensures FreeAt(free', top', usable, l) {
      assert FreeAt(free, top, usable, l + z);
      MergedSorted(usable, top, used, free, m, k, l + z);
    }
    forall l, h | 0 <= l < h < |free'| ensures SortedAt(free', l, h) {
      assert SortedAt(free, l + z, h + z);
    }
    forall i, l | 0 <= i < |used'| && 0 <= l < |free'| ensures CrossAt(used', free', i, l) {
      assert CrossAt(used, free, if i < m then i else i + 1, l + z);
    }
  }

  lemma SumFreeAfter(free: seq<Block>, b: Block, k: nat)
    requires k <= |free|
    requires JoinsLeft(free, b, k) ==> free[k - 1].End() <= b.pos
    requires JoinsRight(free, b, k) ==> b.End() <= free[k].pos
    ensures Sum(FreeAfter(free, b, k)) == Sum(free) + b.size + Swallowed(free, b, k)
  {
    var a, z, x := LeftKept(free, b, k), RightKept(free, b, k), Merged(free, b, k);
    SumReplaced(free, a, z, x);
    SumMiddle(free, a, k, z);
  }

  lemma SumReplaced(free: seq<Block>, a: nat, z: nat, x: Block)
    requires a <= z <= |free|
    ensures Sum(Replaced(free, a, z, x)) == Sum(free) - Sum(free[a..z]) + x.size
    ensures Sum(free) == Sum(free[..a]) + Sum(free[a..z]) + Sum(free[z..])
  {
    SumAppend(free[..a] + [x], free[z..]);
    SumAppend(free[..a], [x]);
    SumOne(x);
    SumAppend(free[..a], free[a..z]);
    SumAppend(free[..a] + free[a..z], free[z..]);
    assert free == free[..a] + free[a..z] + free[z..];
  }

  lemma SumMiddle(free: seq<Block>, a: nat, k: nat, z: nat)
    requires a <= k <= z <= |free| && k <= a + 1 && z <= k + 1
    ensures Sum(free[a..z]) == (if a < k then free[a].size else 0) + (if k < z then free[k].size else 0)
  {
    if a < k {
      assert free[a..z][1..] == free[k..z];
    }
    if k < z {
      assert free[k..z] == [free[k]];
      SumOne(free[k]);
    }
  }

  /** Giving block m back: the fragment bytes swallowed by the merge were fragment bytes
      before, and the rest of the page is accounted for as before. */
  lemma GiveSpace(usable: nat, top: nat, frag: nat, used: seq<Block>, free: seq<Block>, m: nat, k: nat)
    requires Space(usable, top, frag, used, free) && m < |used| && Splits(free, used[m], k)
    ensures JoinsLeft(free, used[m], k) ==> free[k - 1].End() <= used[m].pos
    ensures JoinsRight(free, used[m], k) ==> used[m].End() <= free[k].pos
    ensures 0 <= Swallowed(free, used[m], k) <= frag
    ensures top <= Merged(free, used[m], k).pos
    ensures if top < Merged(free, used[m], k).pos
            then Space(usable, top, frag - Swallowed(free, used[m], k), Without(used, m), FreeAfter(free, used[m], k))
            else k == 0 && Space(usable, Merged(free, used[m], k).End(), frag - Swallowed(free, used[m], k),
                                 Without(used, m), free[RightKept(free, used[m], k)..])
  {
    MergedApart(usable, top, used, free, m, k);
    SumFreeAfter(free, used[m], k);
    SumWithout(used, m);
    if top < Merged(free, used[m], k).pos {
      GiveRegions(usable, top, used, free, m, k);
      RoomLeft(usable, top, Without(used, m), FreeAfter(free, used[m], k));
    } else {
      var z := RightKept(free, used[m], k);
      GiveTop(usable, top, used, free, m, k);
      RoomLeft(usable, Merged(free, used[m], k).End(), Without(used, m), free[z..]);
      SumReplaced(free, 0, z, Merged(free, used[m], k));
      SumMiddle(free, 0, 0, z);
    }
  }

  function Inserted(bs: seq<Block>, i: nat, b: Block): (r: seq<Block>)
    requires i <= |bs|
    ensures |r| == |bs| + 1
    ensures forall j :: 0 <= j < |r| ==> r[j] == if j < i then bs[j] else if j == i then b else bs[j - 1]
  {
    bs[..i] + [b] + bs[i..]
  }

  lemma SumInserted(cells: seq<Block>, i: nat, b: Block)
    requires i <= |cells|
    ensures Sum(Inserted(cells, i, b)) == Sum(cells) + b.size == Sum(cells + [b])
  {
    var used' := Inserted(cells, i, b);
    SumWithout(used', i);
    assert used'[..i] + used'[i + 1..] == cells;
    SumAppend(cells, [b]);
    SumOne(b);
  }

  /** The order in which the cells are listed does not matter. */
  lemma SpaceReordered(usable: nat, top: nat, frag: nat, cells: seq<Block>, b: Block, free: seq<Block>, i: nat)
    requires Space(usable, top, frag, cells + [b], free) && i <= |cells|
    ensures Space(usable, top, frag, Inserted(cells, i, b), free)
  {
    var used, used' := cells + [b], Inserted(cells, i, b);
    SumInserted(cells, i, b);
    forall j | 0 <= j < |used'| ensures UsedAt(used', top, usable, j) {
      assert UsedAt(used, top, usable, if j < i then j else if j == i then |cells| else j - 1);
    }
    forall j, h | 0 <= j < h < |used'| ensures ApartAt(used', j, h) {
      if j == i {
        assert ApartAt(used, h - 1, |cells|);
      } else {
        assert ApartAt(used, if j < i then j else j - 1, if h < i then h else if h == i then |cells| else h - 1);
      }
    }
    forall j, k | 0 <= j < |used'| && 0 <= k < |free| ensures CrossAt(used', free, j, k) {
      assert CrossAt(used, free, if j < i then j else if j == i then |cells| else j - 1, k);
    }
  }
}
