/** The pages in use and the pointers between them: what moving a page to another place in the
    file has to keep. */
module PageGraph {
  import opened DbPages

  /** Where on a page a pointer is. */
  datatype Slot = CellChild(i: nat) | CellOvfl(i: nat) | RightChild | NextOvfl

  /** The pointer in a slot, 0 if there is none. */
  function PtrAt(pg: Page, s: Slot): nat {
    match s
    case CellChild(i) => if pg.BtreePage? && !pg.leaf && i < |pg.cells| then pg.cells[i].child else 0
    case CellOvfl(i) => if pg.BtreePage? && i < |pg.cells| then pg.cells[i].ovfl else 0
    case RightChild => if pg.BtreePage? && !pg.leaf then pg.right else 0
    case NextOvfl => if pg.OvflPage? then pg.next else 0
  }

  /** The pointer-map entry of the page that slot s of page q points to. */
  function EntryFor(s: Slot, q: nat): Entry {
    match s
    case CellChild(_) => Child(q)
    case CellOvfl(_) => Overflow1(q)
    case RightChild => Child(q)
    case NextOvfl => Overflow2(q)
  }

  function SetPtr(pg: Page, s: Slot, v: nat): (r: Page)
    requires PtrAt(pg, s) != 0
    ensures v != 0 ==> forall s' :: PtrAt(r, s') == if s' == s then v else PtrAt(pg, s')
    ensures SameShape(pg, r)
  {
    match s
    case CellChild(i) => BtreePage(pg.leaf, pg.cells[i := pg.cells[i].(child := v)], pg.right)
    case CellOvfl(i) => BtreePage(pg.leaf, pg.cells[i := pg.cells[i].(ovfl := v)], pg.right)
    case RightChild => BtreePage(pg.leaf, pg.cells, v)
    case NextOvfl => OvflPage(v, pg.rest)
  }

  /** The pages agree but for their pointers. */
  predicate SameShape(a: Page, b: Page) {
    || (a.BtreePage? && b.BtreePage? && a.leaf == b.leaf && |a.cells| == |b.cells|
        && forall i :: 0 <= i < |a.cells| ==> a.cells[i].rest == b.cells[i].rest)
    || (a.OvflPage? && b.OvflPage? && a.rest == b.rest)
  }

  /** A page in use; an interior page has no null child pointers. */
  predicate Whole(pg: Page) {
    && !pg.Trunk?
    && (pg.BtreePage? && !pg.leaf ==>
          PtrAt(pg, RightChild) != 0 && forall i :: 0 <= i < |pg.cells| ==> PtrAt(pg, CellChild(i)) != 0)
  }

  /** The page that points to a page, and where. */
  datatype Ref = Ref(page: nat, slot: Slot)

  /** Child pointers lead to b-tree pages, overflow pointers to overflow pages. */
  predicate KindFits(pg: Page, s: Slot) {
    if s.CellChild? || s.RightChild? then pg.BtreePage? else pg.OvflPage?
  }

  /** Page p, in use and no root, is pointed to where `ref` says. */
  ghost predicate RefAt(pages: map<nat, Page>, live: set<nat>, ref: map<nat, Ref>, p: nat) {
    && p in ref && ref[p].page in live && ref[p].page != p
    && ref[p].page in pages && PtrAt(pages[ref[p].page], ref[p].slot) == p
    && p in pages && KindFits(pages[p], ref[p].slot)
  }

  /** Slot s of page q, if it holds a pointer, points to a page in use that nothing else
      points to. */
  ghost predicate TargetAt(pages: map<nat, Page>, live: set<nat>, roots: set<nat>, ref: map<nat, Ref>, q: nat,
                           s: Slot) {
    q in pages ==>
      var p := PtrAt(pages[q], s);
      p != 0 ==> p in live && p !in roots && p in ref && ref[p] == Ref(q, s)
  }

  /** The pages in use form trees: every page but the roots is pointed to from exactly one
      place, which `ref` gives. */
  ghost predicate Tied(pages: map<nat, Page>, live: set<nat>, roots: set<nat>, ref: map<nat, Ref>) {
    && 0 !in live && roots <= live
    && (forall p :: p in live ==> p in pages && Whole(pages[p]))
    && (forall p :: p in live && p !in roots ==> RefAt(pages, live, ref, p))
    && (forall q, s :: q in live ==> TargetAt(pages, live, roots, ref, q, s))
  }

  /** The pointer map is right for every page in use. */
  ghost predicate MapRight(ptr: map<nat, Entry>, live: set<nat>, roots: set<nat>, ref: map<nat, Ref>) {
    forall p :: p in live && p != 1 ==> EntryAt(ptr, roots, ref, p)
  }

  ghost predicate EntryAt(ptr: map<nat, Entry>, roots: set<nat>, ref: map<nat, Ref>, p: nat) {
    p in ptr && if p in roots then ptr[p] == Root else p in ref && ptr[p] == EntryFor(ref[p].slot, ref[p].page)
  }

  // ----- moving page x to y

  function Renumber(x: nat, y: nat, p: nat): nat {
    if p == x then y else p
  }

  ghost predicate RenamedAt(pages: map<nat, Page>, pages': map<nat, Page>, x: nat, y: nat, p: nat) {
    var p' := Renumber(x, y, p);
    && p in pages && p' in pages' && SameShape(pages[p], pages'[p'])
    && forall s :: PtrAt(pages'[p'], s) == Renumber(x, y, PtrAt(pages[p], s))
  }

  /** The same pages with the same content, page x being called y now. */
  ghost predicate Renamed(pages: map<nat, Page>, pages': map<nat, Page>, live: set<nat>, x: nat, y: nat) {
    forall p :: p in live ==> RenamedAt(pages, pages', x, y, p)
  }

  ghost function MovedRef(ref: map<nat, Ref>, x: nat, y: nat): map<nat, Ref>
    requires x in ref
  {
    map p | p in ref.Keys + {y} ::
      if p == y then ref[x] else if ref[p].page == x then Ref(y, ref[p].slot) else ref[p]
  }

  /** The pages after the content of x has been copied to y and the pointer to x set to y. */
  function MovedPages(pages: map<nat, Page>, x: nat, y: nat, r: Ref): map<nat, Page>
    requires x in pages && r.page in pages && PtrAt(pages[r.page], r.slot) != 0
  {
    pages[y := pages[x]][r.page := SetPtr(pages[r.page], r.slot, y)]
  }

  ghost predicate Movable(pages: map<nat, Page>, live: set<nat>, roots: set<nat>, ref: map<nat, Ref>, x: nat, y: nat) {
    && Tied(pages, live, roots, ref) && x in live && x !in roots && y !in live && y != 0
    && RefAt(pages, live, ref, x) && x in pages
  }

  lemma MoveRenames(pages: map<nat, Page>, live: set<nat>, roots: set<nat>, ref: map<nat, Ref>, x: nat, y: nat)
    requires Movable(pages, live, roots, ref, x, y)
    ensures Renamed(pages, MovedPages(pages, x, y, ref[x]), live, x, y)
  {
    var pages' := MovedPages(pages, x, y, ref[x]);
    forall p | p in live ensures RenamedAt(pages, pages', x, y, p) {
      forall s ensures PtrAt(pages'[Renumber(x, y, p)], s) == Renumber(x, y, PtrAt(pages[p], s)) {
        assert TargetAt(pages, live, roots, ref, p, s);
        assert TargetAt(pages, live, roots, ref, p, ref[x].slot);
      }
      assert SameShape(pages[p], pages[p]);
    }
  }

  lemma MoveTies(pages: map<nat, Page>, live: set<nat>, roots: set<nat>, ref: map<nat, Ref>, x: nat, y: nat)
    requires Movable(pages, live, roots, ref, x, y)
    ensures Tied(MovedPages(pages, x, y, ref[x]), live - {x} + {y}, roots, MovedRef(ref, x, y))
  {
    var pages', live', ref' := MovedPages(pages, x, y, ref[x]), live - {x} + {y}, MovedRef(ref, x, y);
    MoveRenames(pages, live, roots, ref, x, y);
    forall p | p in live' && p !in roots ensures RefAt(pages', live', ref', p) {
      var p0 := if p == y then x else p;
      assert RefAt(pages, live, ref, p0);
      assert RenamedAt(pages, pages', x, y, ref[p0].page) && RenamedAt(pages, pages', x, y, p0);
    }
    forall q, s | q in live' ensures TargetAt(pages', live', roots, ref', q, s) {
      var q0 := if q == y then x else q;
      assert TargetAt(pages, live, roots, ref, q0, s) && RenamedAt(pages, pages', x, y, q0);
    }
    forall p | p in live' ensures p in pages' && Whole(pages'[p]) {
      var p0 := if p == y then x else p;
      assert RenamedAt(pages, pages', x, y, p0) && Whole(pages[p0]);
    }
  }

  // ----- the pointer map after a move

  ghost predicate IsTarget(pg: Page, p: nat) {
    exists s :: PtrAt(pg, s) == p && p != 0
  }

  /** The entries of the pages that pg, now page y, points to have been written, and no
      others. */
  ghost predicate ChildrenMapped(ptr: map<nat, Entry>, ptr': map<nat, Entry>, pg: Page, y: nat) {
    && (forall s :: PtrAt(pg, s) != 0 ==> MappedAt(ptr', pg, y, s))
    && (forall p :: p != 0 && !IsTarget(pg, p) ==> SameEntry(ptr, ptr', p))
  }

  ghost predicate MappedAt(ptr: map<nat, Entry>, pg: Page, y: nat, s: Slot) {
    PtrAt(pg, s) in ptr && ptr[PtrAt(pg, s)] == EntryFor(s, y)
  }

  ghost predicate SameEntry(ptr: map<nat, Entry>, ptr': map<nat, Entry>, p: nat) {
    (p in ptr' <==> p in ptr) && (p in ptr ==> ptr'[p] == ptr[p])
  }

  lemma MoveMaps(pages: map<nat, Page>, live: set<nat>, roots: set<nat>, ref: map<nat, Ref>, x: nat, y: nat,
                 ptr: map<nat, Entry>, ptr1: map<nat, Entry>, ptr': map<nat, Entry>)
    requires Movable(pages, live, roots, ref, x, y) && MapRight(ptr, live, roots, ref)
    requires ChildrenMapped(ptr, ptr1, pages[x], y) && ptr' == ptr1[y := EntryFor(ref[x].slot, ref[x].page)]
    ensures MapRight(ptr', live - {x} + {y}, roots, MovedRef(ref, x, y))
    ensures forall p :: p !in live && p != 0 && p != y ==> SameEntry(ptr, ptr', p)
  {
    var live', ref' := live - {x} + {y}, MovedRef(ref, x, y);
    forall p | p != 0 && IsTarget(pages[x], p) ensures p in live && p !in roots && p in ref && ref[p].page == x {
      var s :| PtrAt(pages[x], s) == p;
      assert TargetAt(pages, live, roots, ref, x, s);
    }
    forall p | p in live' && p != 1 ensures EntryAt(ptr', roots, ref', p) {
      if p != y {
        assert EntryAt(ptr, roots, ref, p);
        if p !in roots {
          assert RefAt(pages, live, ref, p);
          if ref[p].page == x {
            assert MappedAt(ptr1, pages[x], y, ref[p].slot);
          } else {
            assert SameEntry(ptr, ptr1, p);
          }
        } else {
          assert SameEntry(ptr, ptr1, p);
        }
      }
    }
    forall p | p !in live && p != 0 && p != y ensures SameEntry(ptr, ptr', p) {
      assert SameEntry(ptr, ptr1, p);
    }
  }

  // ----- what is reachable from a page

  datatype View =
    | Nothing
    | Deeper
    | Node(leaf: bool, cells: seq<CellView>, right: View)
    | Chain(rest: int, next: View)

  datatype CellView = CellView(rest: int, child: View, ovfl: View)

  /** Everything reachable from page p in at most k steps, without page numbers. */
  ghost function ViewOf(pages: map<nat, Page>, p: nat, k: nat): View
    decreases k
  {
    if p == 0 then Nothing
    else if k == 0 || p !in pages then Deeper
    else
      var pg := pages[p];
      match pg
      case Trunk(_, _) => Deeper
      case BtreePage(leaf, cells, _) =>
        Node(leaf,
             seq(|cells|, i requires 0 <= i < |cells| =>
               CellView(cells[i].rest, ViewOf(pages, PtrAt(pg, CellChild(i)), k - 1),
                        ViewOf(pages, PtrAt(pg, CellOvfl(i)), k - 1))),
             ViewOf(pages, PtrAt(pg, RightChild), k - 1))
      case OvflPage(_, rest) => Chain(rest, ViewOf(pages, PtrAt(pg, NextOvfl), k - 1))
  }

  /** Moving a page does not change what is reachable from any page. */
  lemma {:induction false} SameView(pages: map<nat, Page>, pages': map<nat, Page>, live: set<nat>, roots: set<nat>,
                                    ref: map<nat, Ref>, x: nat, y: nat, p: nat, k: nat)
    requires Tied(pages, live, roots, ref) && Renamed(pages, pages', live, x, y) && p in live && x != 0 && y != 0
    ensures ViewOf(pages', Renumber(x, y, p), k) == ViewOf(pages, p, k)
    decreases k
  {
    if k == 0 {
    } else {
      assert RenamedAt(pages, pages', x, y, p);
      var pg, pg' := pages[p], pages'[Renumber(x, y, p)];
      forall s ensures ViewOf(pages', PtrAt(pg', s), k - 1) == ViewOf(pages, PtrAt(pg, s), k - 1) {
        assert TargetAt(pages, live, roots, ref, p, s);
        if PtrAt(pg, s) != 0 {
          SameView(pages, pages', live, roots, ref, x, y, PtrAt(pg, s), k - 1);
        }
      }
      assert ViewOf(pages', Renumber(x, y, p), k) == ViewOf(pages, p, k);
    }
  }
}
