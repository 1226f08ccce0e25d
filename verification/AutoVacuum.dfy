/** Auto-vacuum: pages in use are moved to free pages nearer the start of the file, so that the
    file can be cut off behind the last page in use. */
module AutoVacuumModel {
  import opened DbPages
  import opened PtrMap
  import opened FreelistModel
  import opened PageGraph

  // ----- counting ordinary pages

  ghost function OrdinarySet(n: nat, pend: nat, upTo: nat): (r: set<nat>)
    ensures forall p :: p in r <==> 0 < p <= upTo && Ordinary(n, pend, p)
    ensures |r| == CountOrdinary(n, pend, upTo)
  {
    if upTo == 0 then {}
    else if Ordinary(n, pend, upTo) then OrdinarySet(n, pend, upTo - 1) + {upTo}
    else OrdinarySet(n, pend, upTo - 1)
  }

  /** If as many pages are in use as there are ordinary pages up to nFin, and one of them lies
      beyond, then there is a place for it. */
  lemma PlaceExists(n: nat, pend: nat, live: set<nat>, nFin: nat, x: nat) returns (w: nat)
    requires |live| == CountOrdinary(n, pend, nFin) && x in live && x > nFin
    ensures 0 < w <= nFin && Ordinary(n, pend, w) && w !in live
  {
    var places := OrdinarySet(n, pend, nFin);
    if places <= live {
      Smaller(places + {x}, live);
      assert false;
    }
    w :| w in places && w !in live;
  }

  /** ... and if every such place is taken, no page in use lies beyond. */
  lemma AllPlaced(n: nat, pend: nat, live: set<nat>, nFin: nat)
    requires |live| == CountOrdinary(n, pend, nFin)
    requires forall p :: 0 < p <= nFin && Ordinary(n, pend, p) ==> p in live
    ensures forall p :: p in live ==> p <= nFin
  {
    forall p | p in live ensures p <= nFin {
      if p > nFin {
        var w := PlaceExists(n, pend, live, nFin, p);
        assert false;
      }
    }
  }

  lemma {:induction false} CountGrows(n: nat, pend: nat, a: nat, b: nat)
    requires a <= b
    ensures CountOrdinary(n, pend, a) <= CountOrdinary(n, pend, b)
    ensures a < b && Ordinary(n, pend, b) ==> CountOrdinary(n, pend, a) < CountOrdinary(n, pend, b)
    decreases b
  {
    if a == b {
    } else {
      CountGrows(n, pend, a, b - 1);
    }
  }

  /** Root pages come first in the file. */
  ghost predicate RootsFirst(n: nat, pend: nat, roots: set<nat>) {
    forall r, p: nat :: r in roots && 0 < p < r && Ordinary(n, pend, p) ==> p in roots
  }

  lemma RootsStay(n: nat, pend: nat, live: set<nat>, roots: set<nat>, nFin: nat, r: nat)
    requires |live| == CountOrdinary(n, pend, nFin) && roots <= live && RootsFirst(n, pend, roots) && r in roots
    ensures r <= nFin
  {
    if r > nFin {
      var w := PlaceExists(n, pend, live, nFin, r);
      assert false;
    }
  }

  // ----- loops over one page

  /** Different pointers of a page point to different pages. */
  ghost predicate Injective(pg: Page) {
    forall s, s' :: PtrAt(pg, s) != 0 && PtrAt(pg, s) == PtrAt(pg, s') ==> s == s'
  }

  ghost predicate SlotDone(s: Slot, i: nat) {
    (s.CellChild? || s.CellOvfl?) && s.i < i
  }

  /** setChildPtrmaps after the first i cells. */
  ghost predicate Mapping(ptr: map<nat, Entry>, ptr': map<nat, Entry>, pg: Page, y: nat, i: nat) {
    && (forall s :: PtrAt(pg, s) != 0 && SlotDone(s, i) ==> MappedAt(ptr', pg, y, s))
    && (forall p :: p != 0 && !IsTarget(pg, p) ==> SameEntry(ptr, ptr', p))
  }

  /** Writing the entry of the page that slot s points to. */
  lemma PutOne(ptr: map<nat, Entry>, ptr': map<nat, Entry>, pg: Page, y: nat, s: Slot)
    requires Injective(pg) && PtrAt(pg, s) != 0
    ensures var ptr'' := ptr'[PtrAt(pg, s) := EntryFor(s, y)];
      && MappedAt(ptr'', pg, y, s)
      && (forall s' :: PtrAt(pg, s') != 0 && MappedAt(ptr', pg, y, s') ==> MappedAt(ptr'', pg, y, s'))
      && (forall p :: p != 0 && !IsTarget(pg, p) && SameEntry(ptr, ptr', p) ==> SameEntry(ptr, ptr'', p))
  {
    assert IsTarget(pg, PtrAt(pg, s));
  }

  /** setChildPtrmaps on page y. */
  method SetChildPtrmaps(ptr: map<nat, Entry>, pg: Page, y: nat) returns (ptr': map<nat, Entry>)
    requires pg.BtreePage? && Whole(pg) && Injective(pg)
    ensures ChildrenMapped(ptr, ptr', pg, y)
  {
    ptr' := ptr;
    for i := 0 to |pg.cells|
      invariant Mapping(ptr, ptr', pg, y, i)
    {
      var c := pg.cells[i];
      if c.ovfl != 0 {
        PutOne(ptr, ptr', pg, y, CellOvfl(i));
        assert PtrAt(pg, CellOvfl(i)) == c.ovfl;
        ptr' := ptr'[c.ovfl := Overflow1(y)];
      }
      if !pg.leaf {
        assert PtrAt(pg, CellChild(i)) == c.child != 0;
        PutOne(ptr, ptr', pg, y, CellChild(i));
        ptr' := ptr'[c.child := Child(y)];
      }
    }
    if !pg.leaf {
      PutOne(ptr, ptr', pg, y, RightChild);
      assert PtrAt(pg, RightChild) == pg.right;
      ptr' := ptr'[pg.right := Child(y)];
    }
  }

  /** An overflow page, now page y, points to the next one of its chain. */
  method SetNextPtrmap(ptr: map<nat, Entry>, pg: Page, y: nat) returns (ptr': map<nat, Entry>)
    requires pg.OvflPage?
    ensures ChildrenMapped(ptr, ptr', pg, y)
  {
    ptr' := ptr;
    var nextOvfl := pg.next;
    assert PtrAt(pg, NextOvfl) == nextOvfl;
    if nextOvfl != 0 {
      assert IsTarget(pg, nextOvfl);
      ptr' := ptr'[nextOvfl := Overflow2(y)];
    }
  }

  /** modifyPagePointer: the pointer to `from`, of the kind the pointer-map entry names, is set
      to `to`. */
  method ModifyPagePointer(pg: Page, from: nat, to: nat, e: Entry, ghost s: Slot, ghost q: nat) returns (pg': Page)
    requires from != 0 && to != 0 && PtrAt(pg, s) == from && e == EntryFor(s, q) && Injective(pg)
    ensures pg' == SetPtr(pg, s, to)
  {
    if e.Overflow2? {
      return OvflPage(to, pg.rest);
    }
    for i := 0 to |pg.cells|
      invariant (s.CellChild? || s.CellOvfl?) ==> s.i >= i
    {
      if e.Overflow1? {
        if pg.cells[i].ovfl == from {
          assert PtrAt(pg, CellOvfl(i)) == from;
          return BtreePage(pg.leaf, pg.cells[i := pg.cells[i].(ovfl := to)], pg.right);
        }
      } else {
        assert PtrAt(pg, CellChild(i)) == pg.cells[i].child;
        if pg.cells[i].child == from {
          return BtreePage(pg.leaf, pg.cells[i := pg.cells[i].(child := to)], pg.right);
        }
      }
    }
    return BtreePage(pg.leaf, pg.cells, to);
  }

  // ----- the database file

  /** A list is not affected by changes to pages that are not on it. */
  lemma LinkedFrame(pages: map<nat, Page>, pages': map<nat, Page>, first: nat, list: seq<Node>)
    requires Linked(pages, first, list) && SameListed(pages, pages', list)
    ensures Linked(pages', first, list)
  {
    forall i | 0 <= i < |list| ensures LinkOk(pages', list, i) {
      assert LinkOk(pages, list, i);
      Listed(list, i, list[i].pg);
    }
  }

  ghost predicate SameListed(pages: map<nat, Page>, pages': map<nat, Page>, list: seq<Node>) {
    forall q :: Occ(list, q) > 0 ==> (q in pages' <==> q in pages) && (q in pages ==> pages'[q] == pages[q])
  }

  lemma LiveInjective(pages: map<nat, Page>, live: set<nat>, roots: set<nat>, ref: map<nat, Ref>, p: nat)
    requires Tied(pages, live, roots, ref) && p in live
    ensures Injective(pages[p])
  {
    forall s, s' | PtrAt(pages[p], s) != 0 && PtrAt(pages[p], s) == PtrAt(pages[p], s') ensures s == s' {
      assert TargetAt(pages, live, roots, ref, p, s) && TargetAt(pages, live, roots, ref, p, s');
    }
  }

  /** What is reachable from the roots is the same in both. */
  ghost predicate SameViews(pages: map<nat, Page>, pages': map<nat, Page>, roots: set<nat>) {
    forall r, k :: r in roots ==> ViewOf(pages', r, k) == ViewOf(pages, r, k)
  }

  /** Pages that differ only where nothing in use lies. */
  lemma ViewsFrame(pages: map<nat, Page>, pages': map<nat, Page>, live: set<nat>, roots: set<nat>, ref: map<nat, Ref>)
    requires Tied(pages, live, roots, ref) && SameLive(pages, pages', live)
    ensures Tied(pages', live, roots, ref) && SameViews(pages, pages', roots)
  {
    forall p | p in live && p !in roots ensures RefAt(pages', live, ref, p) {
      assert RefAt(pages, live, ref, p);
    }
    forall q, s | q in live ensures TargetAt(pages', live, roots, ref, q, s) {
      assert TargetAt(pages, live, roots, ref, q, s);
    }
    forall p | p in live ensures RenamedAt(pages, pages', 1, 1, p) {
      assert pages'[p] == pages[p] && Whole(pages[p]);
    }
    forall r, k: nat | r in roots ensures ViewOf(pages', r, k) == ViewOf(pages, r, k) {
      SameView(pages, pages', live, roots, ref, 1, 1, r, k);
    }
  }

  ghost predicate SameLive(pages: map<nat, Page>, pages': map<nat, Page>, live: set<nat>) {
    forall p :: p in live ==> p in pages && p in pages' && pages'[p] == pages[p]
  }

  lemma MoveAll(pages: map<nat, Page>, pages': map<nat, Page>, first: nat, list: seq<Node>, live: set<nat>,
                roots: set<nat>, ref: map<nat, Ref>, x: nat, y: nat, ptr: map<nat, Entry>, ptr1: map<nat, Entry>,
                ptr': map<nat, Entry>)
    requires Movable(pages, live, roots, ref, x, y) && MapRight(ptr, live, roots, ref) && Linked(pages, first, list)
    requires (forall p :: p in live ==> Occ(list, p) == 0) && Occ(list, y) == 0
    requires ChildrenMapped(ptr, ptr1, pages[x], y) && ptr' == ptr1[y := EntryFor(ref[x].slot, ref[x].page)]
    requires pages' == MovedPages(pages, x, y, ref[x])
    ensures Linked(pages', first, list) && SameViews(pages, pages', roots)
    ensures Tied(pages', live - {x} + {y}, roots, MovedRef(ref, x, y))
    ensures MapRight(ptr', live - {x} + {y}, roots, MovedRef(ref, x, y))
    ensures forall p :: p !in live && p != 0 && p != y ==> SameEntry(ptr, ptr', p)
  {
    LinkedFrame(pages, pages', first, list);
    MoveTies(pages, live, roots, ref, x, y);
    MoveMaps(pages, live, roots, ref, x, y, ptr, ptr1, ptr');
    MoveRenames(pages, live, roots, ref, x, y);
    forall r, k: nat | r in roots ensures ViewOf(pages', r, k) == ViewOf(pages, r, k) {
      SameView(pages, pages', live, roots, ref, x, y, r, k);
    }
  }

  /** The page is copied, the entries of the pages it points to are written, and the pointer to
      it and its own entry. */
  method MovePage(pages: map<nat, Page>, ptr: map<nat, Entry>, x: nat, e: Entry, y: nat, ghost first: nat,
                  ghost list: seq<Node>, ghost live: set<nat>, ghost roots: set<nat>, ghost ref: map<nat, Ref>)
    returns (pages': map<nat, Page>, ptr': map<nat, Entry>)
    requires Movable(pages, live, roots, ref, x, y) && MapRight(ptr, live, roots, ref) && Linked(pages, first, list)
    requires (forall p :: p in live ==> Occ(list, p) == 0) && Occ(list, y) == 0
    requires e == EntryFor(ref[x].slot, ref[x].page)
    ensures Linked(pages', first, list) && SameViews(pages, pages', roots)
    ensures Tied(pages', live - {x} + {y}, roots, MovedRef(ref, x, y))
    ensures MapRight(ptr', live - {x} + {y}, roots, MovedRef(ref, x, y))
    ensures forall p :: p !in live && p != 0 && p != y ==> SameEntry(ptr, ptr', p)
  {
    ghost var r := ref[x];
    assert Whole(pages[x]) && Whole(pages[r.page]);
    LiveInjective(pages, live, roots, ref, x);
    LiveInjective(pages, live, roots, ref, r.page);
    pages' := pages[y := pages[x]];
    var ptr1;
    if e.Child? || e.Root? {
      ptr1 := SetChildPtrmaps(ptr, pages'[y], y);
    } else {
      ptr1 := SetNextPtrmap(ptr, pages'[y], y);
    }
    var iPtr := e.parent;
    var fixed := ModifyPagePointer(pages'[iPtr], x, y, e, r.slot, r.page);
    pages' := pages'[iPtr := fixed];
    ptr' := ptr1[y := e];
    MoveAll(pages, pages', first, list, live, roots, ref, x, y, ptr, ptr1, ptr');
  }

  /** While the pages above `cur` have been dealt with: every page up to nFin is in use or
      still on the free list, and there are as many places up to nFin as pages in use. */
  ghost predicate Packing(n: nat, pend: nat, live: set<nat>, list: seq<Node>, ptr: map<nat, Entry>, nFin: nat,
                          cur: nat) {
    && nFin <= cur && |live| == CountOrdinary(n, pend, nFin)
    && (forall p :: p in live ==> p <= cur)
    && (forall p :: 2 <= p <= cur && Ordinary(n, pend, p) ==> p in live || (p in ptr && ptr[p] == Free))
    && PlacesLeft(n, pend, live, list, nFin, 0)
  }

  /** Every place up to nFin but y is in use or on the free list. */
  ghost predicate PlacesLeft(n: nat, pend: nat, live: set<nat>, list: seq<Node>, nFin: nat, y: nat) {
    forall p :: 2 <= p <= nFin && p != y && Ordinary(n, pend, p) ==> p in live || Occ(list, p) > 0
  }

  lemma PackingMoved(n: nat, pend: nat, live: set<nat>, list: seq<Node>, ptr: map<nat, Entry>, list': seq<Node>,
                     ptr': map<nat, Entry>, nFin: nat, x: nat, y: nat)
    requires Packing(n, pend, live, list, ptr, nFin, x) && nFin < x && x in live && y !in live && 2 <= y <= nFin
    requires PlacesLeft(n, pend, live, list', nFin, y)
    requires forall p :: p !in live - {x} + {y} && p != 0 && p != x ==> SameEntry(ptr, ptr', p)
    ensures Packing(n, pend, live - {x} + {y}, list', ptr', nFin, x - 1)
  {
    assert |live - {x} + {y}| == |live|;
    forall p | 2 <= p <= x - 1 && Ordinary(n, pend, p)
      ensures p in live - {x} + {y} || (p in ptr' && ptr'[p] == Free)
    {
      assert p !in live - {x} + {y} ==> SameEntry(ptr, ptr', p);
    }
  }

  /** A page that is not in use is dealt with as it is. */
  lemma PackingSkips(n: nat, pend: nat, live: set<nat>, list: seq<Node>, ptr: map<nat, Entry>, nFin: nat, x: nat)
    requires Packing(n, pend, live, list, ptr, nFin, x) && nFin < x && x !in live
    ensures Packing(n, pend, live, list, ptr, nFin, x - 1)
  {
  }

  /** Without free pages every place up to nFin is in use, and nothing beyond. */
  lemma PackingDone(n: nat, pend: nat, live: set<nat>, ptr: map<nat, Entry>, nFin: nat, x: nat)
    requires Packing(n, pend, live, [], ptr, nFin, x) && 1 in live
    ensures Packing(n, pend, live, [], ptr, nFin, nFin)
  {
    AllPlaced(n, pend, live, nFin);
  }

  /** Every ordinary page up to nPage, but x, is in use or free, and the pointer map says so of
      the free ones. */
  ghost predicate Known(n: nat, pend: nat, live: set<nat>, list: seq<Node>, ptr: map<nat, Entry>, nPage: nat, x: nat) {
    && (forall p :: 0 < p <= nPage && p != x && Ordinary(n, pend, p) ==> p in live || Occ(list, p) > 0)
    && (forall p :: Occ(list, p) > 0 ==> p in ptr && ptr[p] == Free)
  }

  lemma KnownTaken(n: nat, pend: nat, live: set<nat>, list: seq<Node>, ptr: map<nat, Entry>, nPage: nat,
                   list': seq<Node>, x: nat)
    requires Known(n, pend, live, list, ptr, nPage, 0) && Removed(list, list', x)
    ensures Known(n, pend, live, list', ptr, nPage, x)
  {
    forall p | 0 < p <= nPage && p != x && Ordinary(n, pend, p) ensures p in live || Occ(list', p) > 0 {
      assert Occ(list', p) == Occ(list, p);
    }
    forall p | Occ(list', p) > 0 ensures p in ptr && ptr[p] == Free {
      assert Occ(list, p) > 0;
    }
  }

  /** Page y has been taken off the list and page x moved there. */
  lemma KnownMoved(n: nat, pend: nat, live: set<nat>, list: seq<Node>, ptr: map<nat, Entry>, nPage: nat,
                   ptr': map<nat, Entry>, x: nat, y: nat)
    requires Known(n, pend, live, list, ptr, nPage, y) && x in live && Occ(list, x) == 0 && Occ(list, y) == 0
    requires Occ(list, 0) == 0
    requires forall p :: p in live ==> Occ(list, p) == 0
    requires forall p :: p !in live - {x} + {y} && p != 0 && p != x ==> SameEntry(ptr, ptr', p)
    ensures Known(n, pend, live - {x} + {y}, list, ptr', nPage, x)
  {
    forall p | Occ(list, p) > 0 ensures p in ptr' && ptr'[p] == Free {
      assert SameEntry(ptr, ptr', p);
    }
  }

  /** The first ordinary page from fin downwards: page 1 at the latest. */
  lemma {:induction false} Leads(n: nat, pend: nat, fin: nat) returns (t: nat)
    requires 1 <= fin && pend != 1
    ensures LeadsTo(n, pend, fin, t) && 1 <= t && CountOrdinary(n, pend, t) == CountOrdinary(n, pend, fin)
    decreases fin
  {
    if Ordinary(n, pend, fin) {
      t := fin;
    } else {
      OneIsOrdinary(n, pend);
      t := Leads(n, pend, fin - 1);
    }
  }

  lemma OneIsOrdinary(n: nat, pend: nat)
    requires pend != 1
    ensures Ordinary(n, pend, 1)
  {
  }

  /** The ordinary page before iLast. */
  method PrevOrdinary(n: nat, pend: nat, iLast: nat) returns (last: nat)
    requires 2 < pend && 1 < iLast && Ordinary(n, pend, iLast)
    ensures 1 <= last < iLast && Ordinary(n, pend, last)
    ensures CountOrdinary(n, pend, last) == CountOrdinary(n, pend, iLast) - 1
    ensures forall p :: last < p < iLast ==> !Ordinary(n, pend, p)
  {
    ghost var t := Leads(n, pend, iLast - 1);
    last := SkipSpecial(n, pend, iLast - 1, t);
  }

  lemma FileShorter(usable: nat, pend: nat, list: seq<Node>, live: set<nat>, iLast: nat, last: nat)
    requires InFile(usable, pend, true, iLast, list) && Occ(list, iLast) == 0 && last < iLast
    requires iLast !in live && forall p :: p in live ==> p <= iLast && Ordinary(usable / 5, pend, p)
    requires forall p :: last < p < iLast ==> !Ordinary(usable / 5, pend, p)
    ensures InFile(usable, pend, true, last, list) && forall p :: p in live ==> p <= last
  {
    forall p: nat | Occ(list, p) > 0 ensures 2 <= p <= last && CanUse(usable, pend, true, p) {
      assert CanUse(usable, pend, true, p) && p <= iLast;
    }
  }

  class AutoVacuum {
    const fl: FreeList
    ghost const roots: set<nat>
    ghost var live: set<nat>
    ghost var ref: map<nat, Ref>

    constructor (fl: FreeList, ghost roots: set<nat>, ghost live: set<nat>, ghost ref: map<nat, Ref>)
      ensures this.fl == fl && this.roots == roots && this.live == live && this.ref == ref
    {
      this.fl, this.roots, this.live, this.ref := fl, roots, live, ref;
    }

    /** Entries on a pointer-map page. */
    ghost function N(): nat { fl.usable / 5 }

    /** The pages in use are tied together, none of them is on the free list, and the pointer map
        is right for all of them. */
    ghost predicate Inv()
      reads this, fl
    {
      && fl.Valid() && fl.autoVacuum && fl.nPage + 4 < 0x8000_0000
      && 1 in roots && RootsFirst(N(), fl.pend, roots)
      && Tied(fl.pages, live, roots, ref) && MapRight(fl.ptr, live, roots, ref)
      && (forall p :: p in live ==> Occ(fl.list, p) == 0 && p <= fl.nPage && Ordinary(N(), fl.pend, p))
    }

    /** relocatePage: move page iDb, in use, to page iFree. */
    method RelocatePage(iDb: nat, e: Entry, iFree: nat)
      requires Inv() && iDb in live && iDb !in roots && EntryAt(fl.ptr, roots, ref, iDb) && e == fl.ptr[iDb]
      requires 2 <= iFree <= fl.nPage && iFree !in live && Occ(fl.list, iFree) == 0 && Ordinary(N(), fl.pend, iFree)
      modifies fl`pages, fl`ptr, this`live, this`ref
      ensures Inv() && live == old(live) - {iDb} + {iFree} && SameViews(old(fl.pages), fl.pages, roots)
      ensures forall p :: p !in live && p != 0 && p != iDb ==> SameEntry(old(fl.ptr), fl.ptr, p)
    {
      assert RefAt(fl.pages, live, ref, iDb);
      var pages, ptr := MovePage(fl.pages, fl.ptr, iDb, e, iFree, fl.first, fl.list, live, roots, ref);
      fl.pages, fl.ptr := pages, ptr;
      live, ref := live - {iDb} + {iFree}, MovedRef(ref, iDb, iFree);
    }

    // ----- auto-vacuum at commit

    /** Pages are taken from the free list until one is at or below nFin. */
    method TakePlace(nFin: nat, ghost w: nat) returns (iFree: nat)
      requires Inv() && nFin <= fl.nPage && PlacesLeft(N(), fl.pend, live, fl.list, nFin, 0) && 2 <= w <= nFin
      requires Occ(fl.list, w) > 0
      modifies fl`nPage, fl`first, fl`count, fl`pages, fl`list
      ensures Inv() && 2 <= iFree <= nFin && iFree !in live && Occ(fl.list, iFree) == 0 && Ordinary(N(), fl.pend, iFree)
      ensures fl.nPage == old(fl.nPage) && SameViews(old(fl.pages), fl.pages, roots)
      ensures PlacesLeft(N(), fl.pend, live, fl.list, nFin, iFree)
    {
      iFree := TakeAny(w);
      while iFree > nFin
        invariant Inv() && Occ(fl.list, iFree) == 0 && iFree !in live && 2 <= iFree && Ordinary(N(), fl.pend, iFree)
        invariant fl.nPage == old(fl.nPage) && SameViews(old(fl.pages), fl.pages, roots)
        invariant iFree > nFin ==> Occ(fl.list, w) > 0
        invariant PlacesLeft(N(), fl.pend, live, fl.list, nFin, iFree)
        decreases Size(fl.list)
      {
        ghost var pages1 := fl.pages;
        iFree := TakeAny(w);
        ViewsTwice(old(fl.pages), pages1, fl.pages, roots);
      }
    }

    /** Some free page, taken off the list. */
    method TakeAny(ghost w: nat) returns (iFree: nat)
      requires Inv() && Occ(fl.list, w) > 0
      modifies fl`nPage, fl`first, fl`count, fl`pages, fl`list
      ensures Inv() && Occ(old(fl.list), iFree) == 1 && Removed(old(fl.list), fl.list, iFree)
      ensures fl.nPage == old(fl.nPage)
      ensures SameViews(old(fl.pages), fl.pages, roots)
    {
      ghost var pages0, list0 := fl.pages, fl.list;
      SizeZero(fl.list);
      var ok;
      ok, iFree := fl.AllocateBtreePage(0, Any);
      LiveKept(pages0, fl.pages, live, list0, fl.list, iFree);
      ViewsFrame(pages0, fl.pages, live, roots, ref);
    }

    /** Page iLast, in use, is moved to a place at or below nFin. */
    method MoveLast(nFin: nat, iLast: nat, e: Entry)
      requires Inv() && nFin < iLast <= fl.nPage && Packing(N(), fl.pend, live, fl.list, fl.ptr, nFin, iLast)
      requires iLast in live && iLast !in roots && EntryAt(fl.ptr, roots, ref, iLast) && e == fl.ptr[iLast]
      modifies fl`nPage, fl`first, fl`count, fl`pages, fl`list, fl`ptr, this`live, this`ref
      ensures Inv() && SameViews(old(fl.pages), fl.pages, roots) && fl.nPage == old(fl.nPage)
      ensures Packing(N(), fl.pend, live, fl.list, fl.ptr, nFin, iLast - 1)
    {
      ghost var pages0, list0, ptr0, live0 := fl.pages, fl.list, fl.ptr, live;
      ghost var w := PlaceExists(N(), fl.pend, live, nFin, iLast);
      var iFree := TakePlace(nFin, w);
      ghost var pages1, list1 := fl.pages, fl.list;
      RelocatePage(iLast, e, iFree);
      ViewsTwice(pages0, pages1, fl.pages, roots);
      PackingMoved(N(), fl.pend, live0, list0, ptr0, list1, fl.ptr, nFin, iLast, iFree);
    }

    /** incrVacuumStep with bCommit: page iLast is not in use afterwards.  It is done early only
        if nothing beyond nFin is in use. */
    method CommitStep(nFin: nat, iLast: nat) returns (done: bool)
      requires Inv() && nFin < iLast <= fl.nPage && Packing(N(), fl.pend, live, fl.list, fl.ptr, nFin, iLast)
      modifies fl`nPage, fl`first, fl`count, fl`pages, fl`list, fl`ptr, this`live, this`ref
      ensures Inv() && SameViews(old(fl.pages), fl.pages, roots) && fl.nPage == old(fl.nPage)
      ensures Packing(N(), fl.pend, live, fl.list, fl.ptr, nFin, if done then nFin else iLast - 1)
    {
      done := false;
      if IsMapPage(fl.usable / 5, fl.pend, iLast) || iLast == fl.pend {
        PackingSkips(N(), fl.pend, live, fl.list, fl.ptr, nFin, iLast);
        return;
      }
      SizeZero(fl.list);
      if fl.count == 0 {
        PackingDone(N(), fl.pend, live, fl.ptr, nFin, iLast);
        return true;
      }
      var e := fl.ptr[iLast];
      NoRootBeyond(N(), fl.pend, live, roots, nFin);
      assert iLast in live ==> EntryAt(fl.ptr, roots, ref, iLast);
      if e == Free {
        PackingSkips(N(), fl.pend, live, fl.list, fl.ptr, nFin, iLast);
      } else {
        MoveLast(nFin, iLast, e);
      }
    }

    /** The pages above nFin, from the last one down. */
    method PackFile(nFin: nat)
      requires Inv() && Packing(N(), fl.pend, live, fl.list, fl.ptr, nFin, fl.nPage)
      modifies fl`nPage, fl`first, fl`count, fl`pages, fl`list, fl`ptr, this`live, this`ref
      ensures Inv() && SameViews(old(fl.pages), fl.pages, roots) && fl.nPage == old(fl.nPage)
      ensures |live| == CountOrdinary(N(), fl.pend, nFin) && forall p :: p in live ==> p <= nFin
      ensures nFin == fl.nPage ==> fl.list == old(fl.list) && fl.ptr == old(fl.ptr) && live == old(live)
    {
      var iFree, done := fl.nPage, false;
      while iFree > nFin && !done
        invariant Inv() && SameViews(old(fl.pages), fl.pages, roots) && fl.nPage == old(fl.nPage)
        invariant nFin <= iFree <= fl.nPage
        invariant Packing(N(), fl.pend, live, fl.list, fl.ptr, nFin, if done then nFin else iFree)
        invariant nFin == fl.nPage ==> fl.list == old(fl.list) && fl.ptr == old(fl.ptr) && live == old(live)
        decreases iFree, !done
      {
        ghost var pages1 := fl.pages;
        done := CommitStep(nFin, iFree);
        ViewsTwice(old(fl.pages), pages1, fl.pages, roots);
        if !done {
          iFree := iFree - 1;
        }
      }
    }

    /** The file's ordinary pages are the pages in use and the free pages, which the pointer map
        knows; its last page is an ordinary page. */
    ghost predicate Accounted()
      reads this, fl
    {
      && Ordinary(N(), fl.pend, fl.nPage)
      && Known(N(), fl.pend, live, fl.list, fl.ptr, fl.nPage, 0)
    }

    /** autoVacuumCommit: the pages in use end up on the first pages of the file, every ordinary
        page of which is in use, and the file is cut off there; what the roots lead to is the
        same as before. */
    method AutoVacuumCommit()
      requires Inv() && Accounted()
      modifies fl`nPage, fl`first, fl`count, fl`pages, fl`list, fl`ptr, this`live, this`ref
      ensures Inv() && Accounted() && SameViews(old(fl.pages), fl.pages, roots)
      ensures fl.list == [] && |live| == old(|live|) && live == OrdinarySet(N(), fl.pend, fl.nPage)
    {
      var nOrig, nFree := fl.nPage, fl.count;
      LiveCount(N(), fl.pend, live, fl.list, nOrig);
      SizeZero(fl.list);
      var nFin := FinalDbSize(fl.usable, fl.pend, nOrig, nFree);
      PackFile(nFin);
      if nFree > 0 {
        CutOff(nFin);
      } else {
        CountStrict(N(), fl.pend, nFin, nOrig);
      }
      AllInUse(N(), fl.pend, live, fl.nPage);
    }

    /** The free list is emptied and the file ends at nFin. */
    method CutOff(nFin: nat)
      requires Inv() && nFin <= fl.nPage && Ordinary(N(), fl.pend, nFin) && forall p :: p in live ==> p <= nFin
      modifies fl`nPage, fl`first, fl`count, fl`list
      ensures Inv() && fl.nPage == nFin && fl.list == []
    {
      fl.first, fl.count, fl.list := 0, 0, [];
      fl.nPage := nFin;
      assert 1 in live;
    }

    // ----- incremental vacuum

    /** Take the page that allocateBtreePage finds for a search that must succeed: w is free. */
    method TakeFree(nearby: nat, mode: Mode, ghost w: nat) returns (pgno: nat)
      requires Inv() && Accounted() && Occ(fl.list, w) > 0 && fl.Searches(nearby, mode) && Hit(mode, nearby, w)
      requires 0 < nearby < 0x1_0000_0000
      modifies fl`nPage, fl`first, fl`count, fl`pages, fl`list
      ensures Inv() && Occ(old(fl.list), pgno) == 1 && Removed(old(fl.list), fl.list, pgno) && Hit(mode, nearby, pgno)
      ensures fl.nPage == old(fl.nPage) && fl.count == old(fl.count) - 1
      ensures SameViews(old(fl.pages), fl.pages, roots) && Known(N(), fl.pend, live, fl.list, fl.ptr, fl.nPage, pgno)
    {
      ghost var pages0, list0 := fl.pages, fl.list;
      SizeZero(fl.list);
      var ok;
      ok, pgno := fl.AllocateBtreePage(nearby, mode);
      LiveKept(pages0, fl.pages, live, list0, fl.list, pgno);
      ViewsFrame(pages0, fl.pages, live, roots, ref);
      KnownTaken(N(), fl.pend, live, list0, fl.ptr, fl.nPage, fl.list, pgno);
    }

    /** The last page of the file, in use, changes places with a free page at or below nFin. */
    method MoveDown(nFin: nat, iLast: nat, e: Entry)
      requires Inv() && Accounted() && 0 < nFin < iLast == fl.nPage && |live| == CountOrdinary(N(), fl.pend, nFin)
      requires iLast in live && iLast !in roots && EntryAt(fl.ptr, roots, ref, iLast) && e == fl.ptr[iLast]
      modifies fl`nPage, fl`first, fl`count, fl`pages, fl`list, fl`ptr, this`live, this`ref
      ensures Inv() && SameViews(old(fl.pages), fl.pages, roots) && |live| == old(|live|)
      ensures iLast !in live && Occ(fl.list, iLast) == 0 && fl.nPage == old(fl.nPage) && fl.count == old(fl.count) - 1
      ensures Known(N(), fl.pend, live, fl.list, fl.ptr, fl.nPage, iLast)
    {
      ghost var pages0 := fl.pages;
      ghost var w := PlaceExists(N(), fl.pend, live, nFin, iLast);
      var iFree := TakeFree(nFin, Le, w);
      ghost var pages1, live1, ptr1 := fl.pages, live, fl.ptr;
      RelocatePage(iLast, e, iFree);
      ViewsTwice(pages0, pages1, fl.pages, roots);
      KnownMoved(N(), fl.pend, live1, fl.list, ptr1, fl.nPage, fl.ptr, iLast, iFree);
    }

    /** The file now ends at the ordinary page before iLast. */
    method DropLast(iLast: nat)
      requires Inv() && 1 < iLast == fl.nPage && iLast !in live && Occ(fl.list, iLast) == 0
      requires Ordinary(N(), fl.pend, iLast) && Known(N(), fl.pend, live, fl.list, fl.ptr, fl.nPage, iLast)
      modifies fl`nPage
      ensures Inv() && Accounted() && fl.nPage < iLast
      ensures CountOrdinary(N(), fl.pend, fl.nPage) == CountOrdinary(N(), fl.pend, iLast) - 1
    {
      var last := PrevOrdinary(fl.usable / 5, fl.pend, iLast);
      FileShorter(fl.usable, fl.pend, fl.list, live, iLast, last);
      fl.nPage := last;
    }

    /** Page iLast, the last one, is neither in use nor on the free list afterwards. */
    method ReleaseLast(nFin: nat, iLast: nat)
      requires Inv() && Accounted() && 0 < nFin < iLast == fl.nPage && |live| == CountOrdinary(N(), fl.pend, nFin)
      modifies fl`nPage, fl`first, fl`count, fl`pages, fl`list, fl`ptr, this`live, this`ref
      ensures Inv() && SameViews(old(fl.pages), fl.pages, roots) && |live| == old(|live|)
      ensures iLast !in live && Occ(fl.list, iLast) == 0 && fl.nPage == old(fl.nPage) && fl.count == old(fl.count) - 1
      ensures Known(N(), fl.pend, live, fl.list, fl.ptr, fl.nPage, iLast)
    {
      NoRootBeyond(N(), fl.pend, live, roots, nFin);
      assert iLast in live ==> EntryAt(fl.ptr, roots, ref, iLast);
      var e := fl.ptr[iLast];
      if e == Free {
        var iFree := TakeFree(iLast, Exact, iLast);
      } else {
        MoveDown(nFin, iLast, e);
      }
    }

    /** sqlite3BtreeIncrVacuum with a free page left: the file loses its last ordinary page, and
        one free page, and what the roots lead to is the same. */
    method IncrVacuum()
      requires Inv() && Accounted() && fl.count > 0
      modifies fl`nPage, fl`first, fl`count, fl`pages, fl`list, fl`ptr, this`live, this`ref
      ensures Inv() && Accounted() && SameViews(old(fl.pages), fl.pages, roots)
      ensures fl.count == old(fl.count) - 1 && |live| == old(|live|) && fl.nPage < old(fl.nPage)
      ensures CountOrdinary(N(), fl.pend, fl.nPage) == CountOrdinary(N(), fl.pend, old(fl.nPage)) - 1
    {
      var nOrig := fl.nPage;
      LiveCount(N(), fl.pend, live, fl.list, nOrig);
      var nFin := FinalDbSize(fl.usable, fl.pend, nOrig, fl.count);
      assert CountOrdinary(N(), fl.pend, nFin) < CountOrdinary(N(), fl.pend, nOrig);
      ReleaseLast(nFin, nOrig);
      DropLast(nOrig);
    }

    /** Incremental vacuum until it is done: the file ends where finalDbSize said it would. */
    method IncrVacuumAll() returns (nFin: nat)
      requires Inv() && Accounted()
      modifies fl`nPage, fl`first, fl`count, fl`pages, fl`list, fl`ptr, this`live, this`ref
      ensures Inv() && Accounted() && SameViews(old(fl.pages), fl.pages, roots)
      ensures fl.count == 0 && fl.nPage == nFin && |live| == old(|live|) && live == OrdinarySet(N(), fl.pend, nFin)
      ensures Ordinary(N(), fl.pend, nFin)
      ensures CountOrdinary(N(), fl.pend, nFin) == CountOrdinary(N(), fl.pend, old(fl.nPage)) - old(fl.count)
    {
      LiveCount(N(), fl.pend, live, fl.list, fl.nPage);
      nFin := FinalDbSize(fl.usable, fl.pend, fl.nPage, fl.count);
      while fl.count > 0
        invariant Inv() && Accounted() && SameViews(old(fl.pages), fl.pages, roots) && Ordinary(N(), fl.pend, nFin)
        invariant CountOrdinary(N(), fl.pend, nFin) + fl.count == CountOrdinary(N(), fl.pend, fl.nPage)
        invariant |live| == old(|live|) == CountOrdinary(N(), fl.pend, nFin)
        invariant CountOrdinary(N(), fl.pend, nFin) == CountOrdinary(N(), fl.pend, old(fl.nPage)) - old(fl.count)
      {
        ghost var pages1 := fl.pages;
        IncrVacuum();
        ViewsTwice(old(fl.pages), pages1, fl.pages, roots);
      }
      if nFin <= fl.nPage {
        CountStrict(N(), fl.pend, nFin, fl.nPage);
      } else {
        CountStrict(N(), fl.pend, fl.nPage, nFin);
      }
      AllInUse(N(), fl.pend, live, fl.nPage);
    }
  }

  lemma ViewsTwice(a: map<nat, Page>, b: map<nat, Page>, c: map<nat, Page>, roots: set<nat>)
    requires SameViews(a, b, roots) && SameViews(b, c, roots)
    ensures SameViews(a, c, roots)
  {
    forall r, k: nat | r in roots ensures ViewOf(c, r, k) == ViewOf(a, r, k) {
      assert ViewOf(b, r, k) == ViewOf(a, r, k);
    }
  }

  lemma LiveKept(pages: map<nat, Page>, pages': map<nat, Page>, live: set<nat>, list: seq<Node>, list': seq<Node>,
                 pg: nat)
    requires (forall p :: p in live ==> p in pages && Occ(list, p) == 0) && SameUsed(pages, pages', list)
    requires Removed(list, list', pg)
    requires Occ(list, pg) > 0
    ensures SameLive(pages, pages', live) && forall p :: p in live ==> Occ(list', p) == 0
  {
    forall p | p in live ensures p in pages' && pages'[p] == pages[p] && Occ(list', p) == 0 {
      assert Occ(list, p) == 0;
    }
  }

  lemma NoRootBeyond(n: nat, pend: nat, live: set<nat>, roots: set<nat>, nFin: nat)
    requires |live| == CountOrdinary(n, pend, nFin) && roots <= live && RootsFirst(n, pend, roots)
    ensures forall r :: r in roots ==> r <= nFin
  {
    forall r | r in roots ensures r <= nFin {
      RootsStay(n, pend, live, roots, nFin, r);
    }
  }

  /** Pages in use and free pages make up the ordinary pages. */
  lemma LiveCount(n: nat, pend: nat, live: set<nat>, list: seq<Node>, nPage: nat)
    requires Once(list) && forall p :: p in live ==> Occ(list, p) == 0 && 0 < p <= nPage && Ordinary(n, pend, p)
    requires forall p: nat :: Occ(list, p) > 0 ==> 0 < p <= nPage && Ordinary(n, pend, p)
    requires forall p :: 0 < p <= nPage && Ordinary(n, pend, p) ==> p in live || Occ(list, p) > 0
    ensures |live| + Size(list) == CountOrdinary(n, pend, nPage)
  {
    SizeIsCount(list);
    forall p: nat ensures p in FreeSet(list) <==> Occ(list, p) > 0 {
      FreeSetMeans(list, p);
    }
    assert live !! FreeSet(list);
    assert live + FreeSet(list) == OrdinarySet(n, pend, nPage);
  }

  lemma CountStrict(n: nat, pend: nat, a: nat, b: nat)
    requires a <= b && Ordinary(n, pend, b) && CountOrdinary(n, pend, a) == CountOrdinary(n, pend, b)
    ensures a == b
  {
    CountGrows(n, pend, a, b);
  }

  lemma AllInUse(n: nat, pend: nat, live: set<nat>, nPage: nat)
    requires |live| == CountOrdinary(n, pend, nPage) && forall p :: p in live ==> 0 < p <= nPage && Ordinary(n, pend, p)
    ensures live == OrdinarySet(n, pend, nPage)
  {
    var all := OrdinarySet(n, pend, nPage);
    assert live <= all;
    assert all == live + (all - live);
    assert |all - live| == 0;
  }
}
