/** The list of free pages of a database file: trunk pages chained together, each listing
    leaf pages. */
module FreelistModel {
  import opened DbPages
  import opened PtrMap
  import Arithmetic

  datatype Mode = Any | Exact | Le

  // ----- the list as a value

  datatype Node = Node(pg: nat, leaves: seq<nat>)

  /** How often page p is listed. */
  ghost function OccOne(x: Node, p: nat): nat {
    (if x.pg == p then 1 else 0) + multiset(x.leaves)[p]
  }

  ghost function Occ(list: seq<Node>, p: nat): nat {
    if list == [] then 0 else OccOne(list[0], p) + Occ(list[1..], p)
  }

  /** How many entries there are. */
  ghost function Size(list: seq<Node>): nat {
    if list == [] then 0 else 1 + |list[0].leaves| + Size(list[1..])
  }

  ghost predicate Once(list: seq<Node>) {
    forall p :: Occ(list, p) <= 1
  }

  lemma {:induction false} Append(a: seq<Node>, b: seq<Node>, p: nat)
    ensures Occ(a + b, p) == Occ(a, p) + Occ(b, p) && Size(a + b) == Size(a) + Size(b)
  {
    if a == [] {
      assert a + b == b;
    } else {
      assert (a + b)[1..] == a[1..] + b;
      Append(a[1..], b, p);
    }
  }

  lemma Split(list: seq<Node>, i: nat, p: nat)
    requires i < |list|
    ensures Occ(list, p) == Occ(list[..i], p) + OccOne(list[i], p) + Occ(list[i + 1..], p)
    ensures Size(list) == Size(list[..i]) + 1 + |list[i].leaves| + Size(list[i + 1..])
  {
    assert list == list[..i] + list[i..];
    Append(list[..i], list[i..], p);
    assert list[i..][1..] == list[i + 1..];
  }

  lemma {:induction false} OccTwo(list: seq<Node>, i: nat, j: nat, p: nat)
    requires i < j < |list|
    ensures Occ(list, p) >= OccOne(list[i], p) + OccOne(list[j], p)
  {
    Split(list, i, p);
    Split(list[i + 1..], j - i - 1, p);
  }

  /** Trunk and leaf pages are all different. */
  lemma Differ(list: seq<Node>, i: nat, j: nat)
    requires Once(list) && i < |list| && j < |list|
    ensures i != j ==> list[i].pg != list[j].pg
    ensures forall p :: p in list[i].leaves ==> list[j].pg != p
  {
    if i < j {
      OccTwo(list, i, j, list[j].pg);
    } else if j < i {
      OccTwo(list, j, i, list[j].pg);
    } else {
      Split(list, i, list[i].pg);
    }
    assert Occ(list, list[j].pg) <= 1;
    forall p | p in list[i].leaves ensures list[j].pg != p {
      assert p in multiset(list[i].leaves);
    }
  }

  ghost function At(list: seq<Node>, i: nat): nat {
    if i < |list| then list[i].pg else 0
  }

  ghost predicate LinkOk(pages: map<nat, Page>, list: seq<Node>, i: nat)
    requires i < |list|
  {
    list[i].pg != 0 && list[i].pg in pages && pages[list[i].pg] == Trunk(At(list, i + 1), list[i].leaves)
  }

  /** The pages of the file spell out the list. */
  ghost predicate Linked(pages: map<nat, Page>, first: nat, list: seq<Node>) {
    first == At(list, 0) && forall i :: 0 <= i < |list| ==> LinkOk(pages, list, i)
  }

  /** One page, pg, has left the list. */
  ghost predicate Removed(list: seq<Node>, list': seq<Node>, pg: nat) {
    && Size(list') + 1 == Size(list)
    && forall p :: Occ(list', p) == Occ(list, p) - if p == pg then 1 else 0
  }

  /** Pages that are not on the list keep their content. */
  ghost predicate SameUsed(pages: map<nat, Page>, pages': map<nat, Page>, list: seq<Node>) {
    forall q :: Occ(list, q) == 0 ==> (q in pages' <==> q in pages) && (q in pages ==> pages'[q] == pages[q])
  }

  // ----- the ways the list changes

  /** The last leaf takes the place of leaf c. */
  function SwapOut(leaves: seq<nat>, c: nat): (r: seq<nat>)
    requires c < |leaves|
    ensures |r| == |leaves| - 1
    ensures multiset(r) == multiset(leaves) - multiset{leaves[c]}
  {
    var n := |leaves| - 1;
    assert leaves == leaves[..n] + [leaves[n]];
    assert c < n ==> leaves[c := leaves[n]][..n] == leaves[..n][c := leaves[n]];
    leaves[c := leaves[n]][..n]
  }

  /** Node i replaced by one that lists one page less. */
  lemma NodeShrunk(list: seq<Node>, i: nat, x: Node, pg: nat)
    requires i < |list| && |x.leaves| + 1 == |list[i].leaves|
    requires forall p :: OccOne(x, p) == OccOne(list[i], p) - if p == pg then 1 else 0
    ensures Removed(list, list[i := x], pg)
  {
    var list' := list[i := x];
    assert list'[..i] == list[..i] && list'[i + 1..] == list[i + 1..];
    Split(list, i, pg);
    Split(list', i, pg);
    forall p ensures Occ(list', p) == Occ(list, p) - if p == pg then 1 else 0 {
      Split(list, i, p);
      Split(list', i, p);
      assert OccOne(x, p) == OccOne(list[i], p) - if p == pg then 1 else 0;
    }
  }

  lemma LeafTaken(pages: map<nat, Page>, first: nat, list: seq<Node>, i: nat, c: nat, pages': map<nat, Page>,
                  list': seq<Node>)
    requires Linked(pages, first, list) && Once(list) && i < |list| && c < |list[i].leaves|
    requires list' == list[i := Node(list[i].pg, SwapOut(list[i].leaves, c))]
    requires pages' == pages[list[i].pg := Trunk(At(list, i + 1), SwapOut(list[i].leaves, c))]
    ensures Linked(pages', first, list') && Removed(list, list', list[i].leaves[c])
  {
    forall j | 0 <= j < |list'| ensures LinkOk(pages', list', j) {
      assert LinkOk(pages, list, j) && LinkOk(pages, list, i);
      Differ(list, i, j);
    }
    NodeShrunk(list, i, list'[i], list[i].leaves[c]);
  }

  /** The pages after the pointer to node i has been set to v: it is on page 1 (`first`) for
      i == 0, and else on the trunk before. */
  ghost predicate Repointed(pages: map<nat, Page>, first: nat, list: seq<Node>, i: nat, v: nat, pages': map<nat, Page>,
                            first': nat)
    requires i < |list|
  {
    if i == 0 then pages' == pages && first' == v
    else first' == first && pages' == pages[list[i - 1].pg := Trunk(v, list[i - 1].leaves)]
  }

  /** Trunk i, which has no leaves, is taken out of the chain. */
  lemma TrunkTaken(pages: map<nat, Page>, first: nat, list: seq<Node>, i: nat, pages': map<nat, Page>, first': nat,
                   list': seq<Node>)
    requires Linked(pages, first, list) && Once(list) && i < |list| && list[i].leaves == []
    requires Repointed(pages, first, list, i, At(list, i + 1), pages', first')
    requires list' == list[..i] + list[i + 1..]
    ensures Linked(pages', first', list') && Removed(list, list', list[i].pg)
  {
    forall j | 0 <= j < |list'| ensures LinkOk(pages', list', j) {
      var k := if j < i then j else j + 1;
      assert LinkOk(pages, list, k) && list'[j] == list[k];
      if i > 0 {
        assert LinkOk(pages, list, i - 1);
        Differ(list, i - 1, k);
      }
    }
    forall p ensures Occ(list', p) == Occ(list, p) - if p == list[i].pg then 1 else 0 {
      Split(list, i, p);
      Append(list[..i], list[i + 1..], p);
    }
    Split(list, i, 0);
    Append(list[..i], list[i + 1..], 0);
  }

  /** Trunk i is taken and its first leaf becomes a trunk in its place. */
  lemma TrunkReplaced(pages: map<nat, Page>, first: nat, list: seq<Node>, i: nat, pages1: map<nat, Page>,
                      pages': map<nat, Page>, first': nat, list': seq<Node>)
    requires Linked(pages, first, list) && Once(list) && i < |list| && list[i].leaves != [] && list[i].leaves[0] != 0
    requires pages1 == pages[list[i].leaves[0] := Trunk(At(list, i + 1), list[i].leaves[1..])]
    requires Repointed(pages1, first, list, i, list[i].leaves[0], pages', first')
    requires list' == list[i := Node(list[i].leaves[0], list[i].leaves[1..])]
    ensures Linked(pages', first', list') && Removed(list, list', list[i].pg)
  {
    var heir := list[i].leaves[0];
    assert heir in list[i].leaves;
    forall j | 0 <= j < |list'| ensures LinkOk(pages', list', j) {
      assert LinkOk(pages, list, j) && LinkOk(pages, list, i);
      Differ(list, i, j);
      if i > 0 {
        assert LinkOk(pages, list, i - 1);
        Differ(list, i - 1, j);
        Differ(list, i, i - 1);
      }
    }
    assert list[i].leaves == [heir] + list[i].leaves[1..];
    NodeShrunk(list, i, list'[i], list[i].pg);
  }

  lemma LeafAdded(pages: map<nat, Page>, first: nat, list: seq<Node>, pg: nat, pages': map<nat, Page>, list': seq<Node>)
    requires Linked(pages, first, list) && Once(list) && list != []
    requires pages' == pages[list[0].pg := Trunk(At(list, 1), list[0].leaves + [pg])]
    requires list' == list[0 := Node(list[0].pg, list[0].leaves + [pg])]
    ensures Linked(pages', first, list') && Removed(list', list, pg)
  {
    forall j | 0 <= j < |list'| ensures LinkOk(pages', list', j) {
      assert LinkOk(pages, list, j) && LinkOk(pages, list, 0);
      Differ(list, 0, j);
    }
    assert list'[1..] == list[1..];
  }

  lemma TrunkAdded(pages: map<nat, Page>, first: nat, list: seq<Node>, pg: nat, pages': map<nat, Page>,
                   list': seq<Node>)
    requires Linked(pages, first, list) && Occ(list, pg) == 0 && pg != 0
    requires pages' == pages[pg := Trunk(first, [])] && list' == [Node(pg, [])] + list
    ensures Linked(pages', pg, list') && Removed(list', list, pg)
  {
    assert list'[1..] == list;
    forall j | 0 <= j < |list'| ensures LinkOk(pages', list', j) {
      if j > 0 {
        assert LinkOk(pages, list, j - 1);
        Split(list, j - 1, pg);
      }
    }
  }

  // ----- counting

  ghost function SetOf(s: seq<nat>): set<nat> {
    set p | p in s
  }

  /** The listed pages. */
  ghost function FreeSet(list: seq<Node>): set<nat> {
    if list == [] then {} else {list[0].pg} + SetOf(list[0].leaves) + FreeSet(list[1..])
  }

  lemma {:induction false} FreeSetMeans(list: seq<Node>, p: nat)
    ensures p in FreeSet(list) <==> Occ(list, p) > 0
  {
    if list == [] {
    } else {
      FreeSetMeans(list[1..], p);
      assert p in list[0].leaves <==> p in multiset(list[0].leaves);
    }
  }

  lemma {:induction false} SeqSet(s: seq<nat>)
    requires forall p :: multiset(s)[p] <= 1
    ensures |SetOf(s)| == |s|
  {
    if s == [] {
    } else {
      var n := |s| - 1;
      var rest := s[..n];
      assert s == rest + [s[n]];
      forall p ensures multiset(rest)[p] <= 1 {
        assert multiset(s)[p] <= 1;
      }
      SeqSet(rest);
      assert multiset(s)[s[n]] == multiset(rest)[s[n]] + 1;
      assert s[n] !in multiset(rest) && s[n] !in rest;
      assert SetOf(s) == SetOf(rest) + {s[n]};
    }
  }

  /** With no page listed twice, the number of entries is the number of free pages. */
  lemma {:induction false} SizeIsCount(list: seq<Node>)
    requires Once(list)
    ensures |FreeSet(list)| == Size(list)
  {
    if list == [] {
    } else {
      var x, rest := list[0], list[1..];
      forall p ensures Occ(rest, p) <= 1 && OccOne(x, p) + Occ(rest, p) <= 1 && multiset(x.leaves)[p] <= 1 {
        assert Occ(list, p) <= 1;
      }
      SizeIsCount(rest);
      SeqSet(x.leaves);
      var ls := SetOf(x.leaves);
      forall p | p in ls ensures p !in FreeSet(rest) && p != x.pg {
        assert p in multiset(x.leaves);
        FreeSetMeans(rest, p);
        assert OccOne(x, p) + Occ(rest, p) <= 1;
      }
      FreeSetMeans(rest, x.pg);
      assert OccOne(x, x.pg) + Occ(rest, x.pg) <= 1;
      assert ls !! FreeSet(rest) && x.pg !in FreeSet(rest) && x.pg !in ls;
      assert FreeSet(list) == {x.pg} + ls + FreeSet(rest);
      assert |{x.pg} + ls| == 1 + |ls|;
      assert ({x.pg} + ls) !! FreeSet(rest);
    }
  }

  lemma Smaller(a: set<nat>, b: set<nat>)
    requires a <= b
    ensures |a| <= |b|
  {
    assert a + (b - a) == b;
  }

  /** Page 1 is never free, so there are fewer free pages than pages. */
  lemma CountBelow(list: seq<Node>, nPage: nat)
    requires Once(list) && 1 <= nPage && forall p: nat :: Occ(list, p) > 0 ==> 2 <= p <= nPage
    ensures Size(list) < nPage
  {
    SizeIsCount(list);
    forall p | p in FreeSet(list) ensures p in Arithmetic.Range(2, nPage + 1) {
      FreeSetMeans(list, p);
    }
    Smaller(FreeSet(list), Arithmetic.Range(2, nPage + 1));
  }

  // ----- which leaf

  /** The absolute value of a difference of 32-bit page numbers, as sqlite3AbsInt32 sees it. */
  function Dist(a: nat, b: nat): (r: nat)
    requires a < 0x1_0000_0000 && b < 0x1_0000_0000
    ensures r == 0 <==> a == b
    ensures var m := if a >= b then a - b else b - a;
      if m < 0x8000_0000 then r == m else r < 0x8000_0000 && (m > 0x8000_0000 ==> r == 0x1_0000_0000 - m)
  {
    var x := if a >= b then a - b else a - b + 0x1_0000_0000;
    if x < 0x8000_0000 then x else if x == 0x8000_0000 then 0x7fff_ffff else 0x1_0000_0000 - x
  }

  /** The leaf to be considered: with Le the first one not beyond `nearby`, else one of the
      nearest. */
  method Closest(leaves: seq<nat>, nearby: nat, mode: Mode) returns (c: nat)
    requires leaves != [] && nearby < 0x1_0000_0000 && forall j :: 0 <= j < |leaves| ==> leaves[j] < 0x1_0000_0000
    ensures c < |leaves|
    ensures nearby == 0 ==> c == 0
    ensures mode.Le? && nearby > 0 ==> leaves[c] <= nearby || forall j :: 0 <= j < |leaves| ==> leaves[j] > nearby
    ensures !mode.Le? && nearby > 0 ==> forall j :: 0 <= j < |leaves| ==>
      Dist(leaves[c], nearby) <= Dist(leaves[j], nearby)
  {
    c := 0;
    if nearby > 0 {
      if mode.Le? {
        var i := 0;
        while i < |leaves|
          invariant i <= |leaves| && c == 0
          invariant forall j :: 0 <= j < i ==> leaves[j] > nearby
        {
          if leaves[i] <= nearby {
            c := i;
            break;
          }
          i := i + 1;
        }
      } else {
        var dist := Dist(leaves[0], nearby);
        var i := 1;
        while i < |leaves|
          invariant 1 <= i <= |leaves| && c < |leaves| && dist == Dist(leaves[c], nearby)
          invariant forall j :: 0 <= j < i ==> dist <= Dist(leaves[j], nearby)
        {
          var d2 := Dist(leaves[i], nearby);
          if d2 < dist {
            c := i;
            dist := d2;
          }
          i := i + 1;
        }
      }
    }
  }

  /** Page p is the one to take from a trunk page if any page will do: the trunk page itself if it
      has no leaves, else its first leaf, or one of its leaves nearest to `nearby` if that is given. */
  ghost predicate Nearest(x: Node, nearby: nat, p: nat) {
    if x.leaves == [] then p == x.pg
    else
      && p in x.leaves && (nearby == 0 ==> p == x.leaves[0])
      && (0 < nearby < 0x1_0000_0000 ==> forall q :: q in x.leaves ==> NoFarther(p, q, nearby))
  }

  ghost predicate NoFarther(p: nat, q: nat, nearby: nat)
    requires nearby < 0x1_0000_0000
  {
    p < 0x1_0000_0000 && q < 0x1_0000_0000 && Dist(p, nearby) <= Dist(q, nearby)
  }

  // ----- the list in the file

  /** The page is one the search is for. */
  predicate Hit(mode: Mode, nearby: nat, p: nat) {
    p == nearby || (mode.Le? && p < nearby)
  }

  /** Neither the pending-byte page nor, in an auto-vacuum database, a pointer-map page. */
  predicate CanUse(usable: nat, pend: nat, autoVacuum: bool, p: nat) {
    0 < p != pend && (autoVacuum ==> Ordinary(usable / 5, pend, p))
  }

  /** Only pages that may hold content are listed, and none twice. */
  ghost predicate InFile(usable: nat, pend: nat, autoVacuum: bool, nPage: nat, list: seq<Node>) {
    && Once(list)
    && forall p: nat :: Occ(list, p) > 0 ==> 2 <= p <= nPage && CanUse(usable, pend, autoVacuum, p)
  }

  /** Every trunk page has room for its leaves. */
  ghost predicate Fits(usable: nat, list: seq<Node>) {
    forall i :: 0 <= i < |list| ==> |list[i].leaves| <= usable / 4 - 2
  }

  lemma StillInFile(usable: nat, pend: nat, autoVacuum: bool, nPage: nat, list: seq<Node>, list': seq<Node>, pg: nat)
    requires InFile(usable, pend, autoVacuum, nPage, list) && Removed(list, list', pg)
    ensures InFile(usable, pend, autoVacuum, nPage, list')
  {
    forall p: nat ensures Occ(list', p) <= Occ(list, p) <= 1 {
      assert Occ(list', p) == Occ(list, p) - if p == pg then 1 else 0;
    }
  }

  /** If the leaf the trunk page offers is not one the search is for, none is. */
  lemma NoneHit(x: Node, c: nat, nearby: nat, mode: Mode)
    requires c < |x.leaves| && 0 < nearby < 0x1_0000_0000 && !Hit(mode, nearby, x.pg) && !Hit(mode, nearby, x.leaves[c])
    requires forall j :: 0 <= j < |x.leaves| ==> x.leaves[j] < 0x1_0000_0000
    requires mode.Le? ==> x.leaves[c] <= nearby || forall j :: 0 <= j < |x.leaves| ==> x.leaves[j] > nearby
    requires !mode.Le? ==> forall j :: 0 <= j < |x.leaves| ==> Dist(x.leaves[c], nearby) <= Dist(x.leaves[j], nearby)
    ensures forall p :: Hit(mode, nearby, p) ==> OccOne(x, p) == 0
  {
    forall j | 0 <= j < |x.leaves| ensures !Hit(mode, nearby, x.leaves[j]) {
      assert mode.Le? || Dist(x.leaves[c], nearby) <= Dist(x.leaves[j], nearby);
    }
    forall p | Hit(mode, nearby, p) ensures OccOne(x, p) == 0 {
      assert p in multiset(x.leaves) <==> p in x.leaves;
    }
  }

  /** The pointer map says of exactly the listed pages that they are free; page pg, if not 0,
      is in between. */
  ghost predicate Marked(ptr: map<nat, Entry>, list: seq<Node>, pg: nat) {
    forall p: nat :: 0 < p != pg ==> ((p in ptr && ptr[p] == Free) <==> Occ(list, p) > 0)
  }

  class FreeList {
    const usable: nat
    const pend: nat
    const autoVacuum: bool
    var nPage: nat
    var first: nat
    var count: nat
    var pages: map<nat, Page>
    /** The pointer map of an auto-vacuum database. */
    var ptr: map<nat, Entry>
    ghost var list: seq<Node>

    /** The list is in order, whatever its count on page 1 says. */
    ghost predicate Sound()
      reads this
    {
      && 480 <= usable <= 65536 && 2 < pend && 1 <= nPage < 0x1_0000_0000
      && Linked(pages, first, list) && InFile(usable, pend, autoVacuum, nPage, list) && Fits(usable, list)
    }

    ghost predicate Valid()
      reads this
    {
      Sound() && count == Size(list)
    }

    /** A file without free pages. */
    constructor (usable: nat, pend: nat, autoVacuum: bool, nPage: nat, pages: map<nat, Page>, ptr: map<nat, Entry>)
      requires 480 <= usable <= 65536 && 2 < pend && 1 <= nPage < 0x1_0000_0000
      requires forall p :: p in ptr ==> ptr[p] != Free
      ensures Valid() && Marked(this.ptr, list, 0) && list == [] && this.pages == pages && this.ptr == ptr
      ensures this.usable == usable && this.pend == pend && this.autoVacuum == autoVacuum && this.nPage == nPage
    {
      this.usable, this.pend, this.autoVacuum, this.nPage := usable, pend, autoVacuum, nPage;
      this.pages, this.ptr, first, count, list := pages, ptr, 0, 0, [];
    }

    /** What the caller does with a page it has been given: the content is written, and the
        pointer-map entry. */
    method Store(p: nat, e: Entry, content: Page)
      requires Valid() && Occ(list, p) == 0 && e != Free
      modifies this`pages, this`ptr
      ensures Valid() && pages == old(pages)[p := content] && ptr == old(ptr)[p := e]
      ensures old(Marked(ptr, list, p)) ==> Marked(ptr, list, 0)
    {
      pages := pages[p := content];
      ptr := ptr[p := e];
      forall i | 0 <= i < |list| ensures LinkOk(pages, list, i) {
        assert LinkOk(old(pages), list, i);
        Listed(list, i, list[i].pg);
      }
    }

    /** What has changed: page pg is no longer listed, and used pages are untouched. */
    twostate predicate Took(pg: nat)
      reads this
    {
      && Occ(old(list), pg) == 1 && Removed(old(list), list, pg)
      && SameUsed(old(pages), pages, old(list)) && nPage == old(nPage) && ptr == old(ptr)
    }

    /** The pointer to node i set to v. */
    method Repoint(prev: nat, v: nat, ghost i: nat, ghost first0: nat, ghost list0: seq<Node>)
      requires i < |list0| && (if i == 0 then prev == 0 else prev == list0[i - 1].pg != 0)
      requires i > 0 ==> prev in pages && pages[prev].Trunk? && pages[prev].leaves == list0[i - 1].leaves
      requires first == first0
      modifies this`pages, this`first
      ensures Repointed(old(pages), first0, list0, i, v, pages, first)
    {
      if prev == 0 {
        first := v;
      } else {
        pages := pages[prev := Trunk(v, pages[prev].leaves)];
      }
    }

    /** A trunk page without leaves is handed out. */
    method TakeTrunk(iTrunk: nat, prev: nat, ghost i: nat)
      requires Sound() && i < |list| && list[i].leaves == [] && iTrunk == list[i].pg
      requires prev == if i == 0 then 0 else list[i - 1].pg
      modifies this`pages, this`first, this`list
      ensures Sound() && Took(iTrunk)
    {
      ghost var pages0, list0, first0 := pages, list, first;
      assert LinkOk(pages, list, i);
      assert i > 0 ==> LinkOk(pages, list, i - 1);
      Repoint(prev, pages[iTrunk].next, i, first, list);
      list := list[..i] + list[i + 1..];
      TrunkTaken(pages0, first0, list0, i, pages, first, list);
      StillInFile(usable, pend, autoVacuum, nPage, list0, list, iTrunk);
      Listed(list0, i, iTrunk);
      if i > 0 {
        Listed(list0, i - 1, prev);
      }
    }

    /** A trunk page with leaves is handed out: its first leaf takes its place. */
    method ReplaceTrunk(iTrunk: nat, prev: nat, ghost i: nat)
      requires Sound() && i < |list| && list[i].leaves != [] && iTrunk == list[i].pg
      requires prev == if i == 0 then 0 else list[i - 1].pg
      modifies this`pages, this`first, this`list
      ensures Sound() && Took(iTrunk)
    {
      ghost var pages0, list0, first0 := pages, list, first;
      assert LinkOk(pages, list, i);
      var t := pages[iTrunk];
      var heir := t.leaves[0];
      Listed(list, i, heir);
      assert heir in list[i].leaves;
      if i > 0 {
        assert LinkOk(pages, list, i - 1);
        Differ(list, i, i - 1);
      }
      pages := pages[heir := Trunk(t.next, t.leaves[1..])];
      ghost var pages1 := pages;
      Repoint(prev, heir, i, first, list);
      list := list[i := Node(heir, list[i].leaves[1..])];
      TrunkReplaced(pages0, first0, list0, i, pages1, pages, first, list);
      StillInFile(usable, pend, autoVacuum, nPage, list0, list, iTrunk);
      Listed(list0, i, iTrunk);
      if i > 0 {
        Listed(list0, i - 1, prev);
      }
    }

    /** Leaf c of a trunk page is handed out. */
    method TakeLeaf(iTrunk: nat, c: nat, ghost i: nat) returns (pgno: nat)
      requires Sound() && i < |list| && c < |list[i].leaves| && iTrunk == list[i].pg
      modifies this`pages, this`list
      ensures Sound() && pgno == old(list[i].leaves[c]) && Took(pgno)
    {
      ghost var pages0, list0 := pages, list;
      assert LinkOk(pages, list, i);
      var t := pages[iTrunk];
      pgno := t.leaves[c];
      pages := pages[iTrunk := Trunk(t.next, SwapOut(t.leaves, c))];
      list := list[i := Node(list[i].pg, SwapOut(list[i].leaves, c))];
      LeafTaken(pages0, first, list0, i, c, pages, list);
      StillInFile(usable, pend, autoVacuum, nPage, list0, list, pgno);
      assert pgno in list0[i].leaves;
      Listed(list0, i, pgno);
      Listed(list0, i, iTrunk);
    }

    /** One round of the search: is something on trunk i, or the trunk itself, to be taken? */
    method TryTrunk(iTrunk: nat, prev: nat, nearby: nat, mode: Mode, search: bool, ghost i: nat)
      returns (taken: bool, pgno: nat)
      requires Sound() && i < |list| && iTrunk == list[i].pg && prev == (if i == 0 then 0 else list[i - 1].pg)
      requires nearby < 0x1_0000_0000 && (search ==> nearby > 0)
      modifies this`pages, this`first, this`list
      ensures Sound()
      ensures taken ==> Took(pgno) && (search ==> Hit(mode, nearby, pgno))
      ensures taken && !search && !mode.Le? ==> Nearest(old(list)[i], nearby, pgno)
      ensures !taken ==> search && pages == old(pages) && first == old(first) && list == old(list)
      ensures !taken ==> forall p :: Hit(mode, nearby, p) ==> OccOne(old(list)[i], p) == 0
    {
      assert LinkOk(pages, list, i);
      var leaves := pages[iTrunk].leaves;
      forall j | 0 <= j < |leaves| ensures leaves[j] < 0x1_0000_0000 {
        assert leaves[j] in list[i].leaves;
        Listed(list, i, leaves[j]);
      }
      taken, pgno := true, iTrunk;
      if |leaves| == 0 && !search {
        TakeTrunk(iTrunk, prev, i);
      } else if search && Hit(mode, nearby, iTrunk) {
        if |leaves| == 0 {
          TakeTrunk(iTrunk, prev, i);
        } else {
          ReplaceTrunk(iTrunk, prev, i);
        }
      } else if |leaves| > 0 {
        var c := Closest(leaves, nearby, mode);
        if !search || Hit(mode, nearby, leaves[c]) {
          ghost var x := list[i];
          pgno := TakeLeaf(iTrunk, c, i);
          if !search && !mode.Le? {
            assert pgno == leaves[c] && x.leaves == leaves;
            forall q | nearby > 0 && q in leaves ensures NoFarther(pgno, q, nearby) {
              var j :| 0 <= j < |leaves| && leaves[j] == q;
            }
          }
        } else {
          NoneHit(list[i], c, nearby, mode);
          taken := false;
        }
      } else {
        taken := false;
      }
    }

    /** The trunk pages one after the other, until a page is taken. */
    method Search(nearby: nat, mode: Mode, search: bool) returns (ok: bool, pgno: nat)
      requires Sound() && list != [] && nearby < 0x1_0000_0000 && (search ==> nearby > 0)
      modifies this`pages, this`first, this`list
      ensures Sound()
      ensures ok ==> Took(pgno) && (search ==> Hit(mode, nearby, pgno))
      ensures !search && !mode.Le? ==> Nearest(old(list)[0], nearby, pgno)
      ensures !ok ==> search && pages == old(pages) && first == old(first) && list == old(list)
      ensures !ok ==> forall p :: Hit(mode, nearby, p) ==> Occ(list, p) == 0
    {
      var prev, iTrunk := 0, first;
      ghost var i := 0;
      assert LinkOk(pages, list, 0);
      while iTrunk != 0
        invariant Sound() && pages == old(pages) && first == old(first) && list == old(list)
        invariant i <= |list| && iTrunk == At(list, i) && prev == if i == 0 then 0 else list[i - 1].pg
        invariant i > 0 ==> search
        invariant forall p :: Hit(mode, nearby, p) ==> Occ(list[..i], p) == 0
        decreases |list| - i
      {
        assert LinkOk(pages, list, i);
        ok, pgno := TryTrunk(iTrunk, prev, nearby, mode, search, i);
        if ok {
          return;
        }
        StillNone(list, i, nearby, mode);
        prev := iTrunk;
        iTrunk := pages[iTrunk].next;
        i := i + 1;
      }
      assert i < |list| ==> LinkOk(pages, list, i);
      assert list[..|list|] == list;
      ok, pgno := false, 0;
    }

    /** A new page at the end of the file. */
    method Append() returns (pgno: nat)
      requires Sound() && nPage + 4 < 0x1_0000_0000
      modifies this`nPage
      ensures Sound() && pgno == nPage > old(nPage) && CanUse(usable, pend, autoVacuum, pgno)
      ensures forall q :: old(nPage) < q < pgno ==> !CanUse(usable, pend, autoVacuum, q)
    {
      ghost var was := nPage;
      nPage := nPage + 1;
      if nPage == pend {
        nPage := nPage + 1;
      }
      if autoVacuum {
        NextPages(usable / 5, pend, was);
        if IsMapPage(usable / 5, pend, nPage) {
          nPage := nPage + 1;
          if nPage == pend {
            nPage := nPage + 1;
          }
        }
      }
      pgno := nPage;
    }

    /** Whether the whole list is to be searched. */
    predicate Searches(nearby: nat, mode: Mode)
      reads this
    {
      mode.Le? || (mode.Exact? && nearby <= nPage && nearby in ptr && ptr[nearby] == Free)
    }

    /** allocateBtreePage: a page that was free, or a new one if none was.  A search fails only
        if no page it is for is free. */
    method AllocateBtreePage(nearby: nat, mode: Mode) returns (ok: bool, pgno: nat)
      requires Valid() && nearby < 0x1_0000_0000 && nPage + 4 < 0x1_0000_0000
      requires !mode.Any? ==> nearby > 0 && autoVacuum
      modifies this`nPage, this`first, this`count, this`pages, this`list
      ensures ok ==> Valid()
      ensures ok && old(count) > 0 ==> Took(pgno) && (old(Searches(nearby, mode)) ==> Hit(mode, nearby, pgno))
      ensures ok && old(count) > 0 && !old(Searches(nearby, mode)) ==>
        old(list) != [] && Nearest(old(list)[0], nearby, pgno)
      ensures ok && old(count) == 0 ==> pgno == nPage > old(nPage) && list == [] && pages == old(pages)
      ensures ok && old(count) == 0 ==> CanUse(usable, pend, autoVacuum, pgno)
      ensures ok && old(count) == 0 ==> forall q :: old(nPage) < q < pgno ==> !CanUse(usable, pend, autoVacuum, q)
      ensures !ok <==>
        old(count > 0 && Searches(nearby, mode)) && forall p: nat :: Hit(mode, nearby, p) ==> Occ(old(list), p) == 0
      ensures !ok ==> pages == old(pages) && first == old(first) && list == old(list)
      ensures old(Marked(ptr, list, 0)) && mode.Exact? && Occ(old(list), nearby) > 0 ==> ok && pgno == nearby
      ensures old(Marked(ptr, list, 0)) && !ok ==> mode.Le?
      ensures ok && old(count) > 0 && old(Marked(ptr, list, 0)) ==> Marked(ptr, list, pgno)
    {
      CountBelow(list, nPage);
      SizeZero(list);
      if count > 0 {
        var search := Searches(nearby, mode);
        count := count - 1;
        ghost var list0 := list;
        ok, pgno := Search(nearby, mode, search);
        assert ok ==> Occ(list0, pgno) == 1;
        if ok && Marked(ptr, list0, 0) {
          StillMarked(ptr, list0, list, pgno);
        }
      } else {
        pgno := Append();
        ok := true;
      }
    }

    /** The page becomes a leaf of the first trunk page. */
    method AddLeaf(iPage: nat)
      requires Sound() && Occ(list, iPage) == 0 && 2 <= iPage <= nPage && CanUse(usable, pend, autoVacuum, iPage)
      requires list != [] && |list[0].leaves| < usable / 4 - 2
      modifies this`pages, this`list
      ensures Sound() && Removed(list, old(list), iPage) && SameUsed(old(pages), pages, list)
      ensures list == old(list)[0 := Node(old(list)[0].pg, old(list)[0].leaves + [iPage])]
    {
      ghost var pages0, list0 := pages, list;
      assert LinkOk(pages, list, 0);
      var t := pages[first];
      pages := pages[first := Trunk(t.next, t.leaves + [iPage])];
      list := list[0 := Node(list[0].pg, list[0].leaves + [iPage])];
      LeafAdded(pages0, first, list0, iPage, pages, list);
      Grown(usable, pend, autoVacuum, nPage, list0, list, iPage);
      Listed(list, 0, first);
    }

    /** The page becomes the first trunk page. */
    method AddTrunk(iPage: nat, iTrunk: nat)
      requires Sound() && Occ(list, iPage) == 0 && 2 <= iPage <= nPage && CanUse(usable, pend, autoVacuum, iPage)
      requires iTrunk == first
      modifies this`pages, this`first, this`list
      ensures Sound() && Removed(list, old(list), iPage) && SameUsed(old(pages), pages, list)
      ensures list == [Node(iPage, [])] + old(list)
    {
      ghost var pages0, list0, first0 := pages, list, first;
      pages := pages[iPage := Trunk(iTrunk, [])];
      first := iPage;
      list := [Node(iPage, [])] + list;
      TrunkAdded(pages0, first0, list0, iPage, pages, list);
      Grown(usable, pend, autoVacuum, nPage, list0, list, iPage);
    }

    /** freePage2: page iPage is free now, and nothing else has changed. */
    method FreePage(iPage: nat)
      requires Valid() && Occ(list, iPage) == 0 && 2 <= iPage <= nPage && CanUse(usable, pend, autoVacuum, iPage)
      modifies this`first, this`count, this`pages, this`list, this`ptr
      ensures Valid() && Removed(list, old(list), iPage) && count == old(count) + 1
      ensures SameUsed(old(pages), pages, list) && ptr == if autoVacuum then old(ptr)[iPage := Free] else old(ptr)
      ensures autoVacuum && old(Marked(ptr, list, iPage)) ==> Marked(ptr, list, 0)
      ensures if old(list) != [] && |old(list)[0].leaves| < usable / 4 - 8
              then list == old(list)[0 := Node(old(list)[0].pg, old(list)[0].leaves + [iPage])]
              else list == [Node(iPage, [])] + old(list)
    {
      SizeZero(list);
      var nFree, iTrunk := count, 0;
      count := nFree + 1;
      if autoVacuum {
        ptr := ptr[iPage := Free];
      }
      if nFree != 0 {
        assert LinkOk(pages, list, 0);
        iTrunk := first;
        if |pages[iTrunk].leaves| < usable / 4 - 8 {
          AddLeaf(iPage);
          MarkedFree(old(ptr), old(list), list, iPage);
          return;
        }
      }
      AddTrunk(iPage, iTrunk);
      MarkedFree(old(ptr), old(list), list, iPage);
    }
  }

  /** A page listed by node i is listed. */
  lemma Listed(list: seq<Node>, i: nat, p: nat)
    requires i < |list|
    ensures OccOne(list[i], p) <= Occ(list, p)
    ensures p == list[i].pg || p in list[i].leaves ==> OccOne(list[i], p) > 0
  {
    Split(list, i, p);
    assert p in list[i].leaves ==> p in multiset(list[i].leaves);
  }

  lemma StillNone(list: seq<Node>, i: nat, nearby: nat, mode: Mode)
    requires i < |list| && forall p :: Hit(mode, nearby, p) ==> Occ(list[..i], p) == 0
    requires forall p :: Hit(mode, nearby, p) ==> OccOne(list[i], p) == 0
    ensures forall p :: Hit(mode, nearby, p) ==> Occ(list[..i + 1], p) == 0
  {
    forall p | Hit(mode, nearby, p) ensures Occ(list[..i + 1], p) == 0 {
      assert list[..i + 1] == list[..i] + [list[i]];
      Append(list[..i], [list[i]], p);
    }
  }

  lemma SizeZero(list: seq<Node>)
    ensures Size(list) == 0 <==> list == []
  {
  }

  lemma StillMarked(ptr: map<nat, Entry>, list: seq<Node>, list': seq<Node>, pg: nat)
    requires Marked(ptr, list, 0) && Removed(list, list', pg)
    ensures Marked(ptr, list', pg)
  {
    forall p: nat | 0 < p != pg ensures (p in ptr && ptr[p] == Free) <==> Occ(list', p) > 0 {
      assert Occ(list', p) == Occ(list, p);
    }
  }

  /** Freeing a page keeps the pointer map and the list in step. */
  lemma MarkedFree(ptr: map<nat, Entry>, list: seq<Node>, list': seq<Node>, pg: nat)
    requires Removed(list', list, pg)
    ensures Marked(ptr, list, pg) ==> Marked(ptr[pg := Free], list', 0)
  {
    if Marked(ptr, list, pg) {
      forall p: nat | 0 < p ensures (p in ptr[pg := Free] && ptr[pg := Free][p] == Free) <==> Occ(list', p) > 0 {
        assert Occ(list, p) == Occ(list', p) - if p == pg then 1 else 0;
      }
    }
  }

  lemma Grown(usable: nat, pend: nat, autoVacuum: bool, nPage: nat, list: seq<Node>, list': seq<Node>, pg: nat)
    requires InFile(usable, pend, autoVacuum, nPage, list) && Removed(list', list, pg) && Occ(list, pg) == 0
    requires 2 <= pg <= nPage && CanUse(usable, pend, autoVacuum, pg)
    ensures InFile(usable, pend, autoVacuum, nPage, list') 
    ensures forall p: nat :: Occ(list', p) == Occ(list, p) + if p == pg then 1 else 0
  {
    forall p: nat ensures Occ(list', p) == Occ(list, p) + if p == pg then 1 else 0 {
      assert Occ(list, p) == Occ(list', p) - if p == pg then 1 else 0;
    }
  }

  /** Past the end of the file: of three consecutive pages that are not the pending-byte page
      at most one is a pointer-map page. */
  lemma NextPages(n: nat, pend: nat, nPage: nat)
    requires 8 <= n && 2 < pend && 1 <= nPage
    ensures forall q: nat :: nPage < q ==> (Ordinary(n, pend, q) <==> !IsMapPage(n, pend, q) && q != pend)
    ensures forall p, q :: nPage < p < q <= nPage + 4 && IsMapPage(n, pend, p) ==>
      !IsMapPage(n, pend, q) || p == pend || q == pend
  {
    forall p, q | nPage < p < q <= nPage + 4 && IsMapPage(n, pend, p)
      ensures !IsMapPage(n, pend, q) || p == pend || q == pend
    {
      PagenoBySlot(n, pend, p);
      PagenoBySlot(n, pend, q);
      StartSlot(n, p);
      StartSlot(n, q);
      NextSlot(n, p);
      NextSlot(n, p + 1);
      NextSlot(n, p + 2);
    }
  }
}
