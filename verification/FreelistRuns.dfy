/** Any sequence of allocations and releases of pages, against a ledger that knows only which
    pages are free and what the others hold. */
module FreelistRuns {
  import opened DbPages
  import opened PtrMap
  import opened FreelistModel

  datatype Op = Alloc(nearby: nat, mode: Mode, e: Entry, content: Page) | Release(p: nat)

  /** The free pages, the number of pages, and the content of pages that are not free. */
  datatype Ledger = Ledger(free: set<nat>, nPage: nat, data: map<nat, Page>)

  ghost function UsedData(pages: map<nat, Page>, free: set<nat>): map<nat, Page> {
    map p | p in pages && p !in free :: pages[p]
  }

  /** What the source demands of its callers; there is room for one more page, and a page that
      is released is in use. */
  predicate Allowed(usable: nat, pend: nat, autoVacuum: bool, l: Ledger, op: Op) {
    match op
    case Alloc(nearby, mode, e, _) =>
      && nearby < 0x1_0000_0000 && l.nPage + 4 < 0x1_0000_0000
      && (!mode.Any? ==> nearby > 0 && autoVacuum) && e != Free
    case Release(p) => p in l.data && p !in l.free && 2 <= p <= l.nPage && CanUse(usable, pend, autoVacuum, p)
  }

  /** Page p is a right answer to the request. */
  ghost predicate Answers(usable: nat, pend: nat, autoVacuum: bool, l: Ledger, op: Op, p: nat)
    requires op.Alloc?
  {
    if l.free == {} then
      p > l.nPage && CanUse(usable, pend, autoVacuum, p) && NoneBetween(usable, pend, autoVacuum, l.nPage, p)
    else
      && p in l.free && (op.mode.Exact? && op.nearby in l.free ==> p == op.nearby)
      && (op.mode.Le? ==> p <= op.nearby)
  }

  ghost predicate NoneBetween(usable: nat, pend: nat, autoVacuum: bool, a: nat, b: nat) {
    forall q :: a < q < b ==> !CanUse(usable, pend, autoVacuum, q)
  }

  /** No page answers the request: a page at or below `nearby` is asked for, and all free pages lie
      beyond. */
  ghost predicate NoAnswer(l: Ledger, op: Op) {
    op.Alloc? && op.mode.Le? && l.free != {} && forall q :: q in l.free ==> q > op.nearby
  }

  function Applied(l: Ledger, op: Op, p: nat): Ledger {
    match op
    case Alloc(_, _, _, content) =>
      Ledger(l.free - {p}, if l.free == {} then p else l.nPage, l.data[p := content])
    case Release(q) => Ledger(l.free + {q}, l.nPage, l.data - {q})
  }

  /** What is not allowed does not happen. */
  ghost function Next(usable: nat, pend: nat, autoVacuum: bool, l: Ledger, op: Op, p: nat): Ledger {
    if Allowed(usable, pend, autoVacuum, l, op) then Applied(l, op, p) else l
  }

  /** The ledger after the first |given| operations, given the pages handed out. */
  ghost function LedgerAfter(usable: nat, pend: nat, autoVacuum: bool, l: Ledger, ops: seq<Op>, given: seq<nat>): Ledger
    requires |given| <= |ops|
    decreases |given|
  {
    if given == [] then l
    else
      var n := |given| - 1;
      Next(usable, pend, autoVacuum, LedgerAfter(usable, pend, autoVacuum, l, ops, given[..n]), ops[n], given[n])
  }

  /** If operation i is a request that is allowed, it gets a right answer. */
  ghost predicate RightAt(usable: nat, pend: nat, autoVacuum: bool, l: Ledger, ops: seq<Op>, given: seq<nat>, i: nat)
    requires i < |given| <= |ops|
  {
    var now := LedgerAfter(usable, pend, autoVacuum, l, ops, given[..i]);
    ops[i].Alloc? && Allowed(usable, pend, autoVacuum, now, ops[i]) ==>
      Answers(usable, pend, autoVacuum, now, ops[i], given[i])
  }

  /** The file agrees with the ledger, and the pointer map with the list. */
  ghost predicate Books(fl: FreeList, l: Ledger)
    reads fl
  {
    && fl.Valid() && (fl.autoVacuum ==> Marked(fl.ptr, fl.list, 0))
    && l == Entered(fl.pages, fl.list, fl.nPage)
  }

  lemma FreeSetRemoved(list: seq<Node>, list': seq<Node>, pg: nat)
    requires Removed(list, list', pg) && Occ(list, pg) == 1
    ensures FreeSet(list') == FreeSet(list) - {pg}
    ensures forall p: nat :: p in FreeSet(list) <==> Occ(list, p) > 0
  {
    forall p: nat ensures p in FreeSet(list') <==> p in FreeSet(list) - {pg}
      ensures p in FreeSet(list) <==> Occ(list, p) > 0
    {
      FreeSetMeans(list, p);
      FreeSetMeans(list', p);
      assert Occ(list', p) == Occ(list, p) - if p == pg then 1 else 0;
    }
  }

  /** A page is taken off the list and written: the other pages in use are as they were. */
  lemma DataTaken(pages: map<nat, Page>, pages': map<nat, Page>, list: seq<Node>, list': seq<Node>, pg: nat,
                  content: Page)
    requires Removed(list, list', pg) && Occ(list, pg) == 1 && SameUsed(pages, pages', list)
    ensures UsedData(pages'[pg := content], FreeSet(list')) == UsedData(pages, FreeSet(list))[pg := content]
  {
    FreeSetRemoved(list, list', pg);
    var a, b := UsedData(pages'[pg := content], FreeSet(list')), UsedData(pages, FreeSet(list))[pg := content];
    forall p: nat ensures (p in a <==> p in b) && (p in a ==> a[p] == b[p]) {
      FreeSetMeans(list, p);
    }
  }

  lemma DataFreed(pages: map<nat, Page>, pages': map<nat, Page>, list: seq<Node>, list': seq<Node>, pg: nat)
    requires Removed(list', list, pg) && Occ(list, pg) == 0 && SameUsed(pages, pages', list')
    ensures FreeSet(list') == FreeSet(list) + {pg}
    ensures UsedData(pages', FreeSet(list')) == UsedData(pages, FreeSet(list)) - {pg}
  {
    assert Occ(list, pg) == Occ(list', pg) - 1;
    FreeSetRemoved(list', list, pg);
    FreeSetMeans(list, pg);
    assert FreeSet(list') == FreeSet(list) + {pg};
    var a, b := UsedData(pages', FreeSet(list')), UsedData(pages, FreeSet(list)) - {pg};
    forall p: nat ensures (p in a <==> p in b) && (p in a ==> a[p] == b[p]) {
      FreeSetMeans(list', p);
    }
  }

  lemma NoFree(list: seq<Node>)
    ensures FreeSet(list) == {} <==> list == []
  {
    if list != [] {
      assert list[0].pg in FreeSet(list);
    }
  }

  /** The ledger of these pages and this list. */
  ghost function Entered(pages: map<nat, Page>, list: seq<Node>, nPage: nat): Ledger {
    Ledger(FreeSet(list), nPage, UsedData(pages, FreeSet(list)))
  }

  /** A page that was free has been taken. */
  lemma Taken(usable: nat, pend: nat, autoVacuum: bool, pages: map<nat, Page>, list: seq<Node>, nPage: nat,
              pages': map<nat, Page>, list': seq<Node>, op: Op, p: nat)
    requires op.Alloc? && Occ(list, p) == 1 && Removed(list, list', p) && SameUsed(pages, pages', list)
    requires op.mode.Le? ==> Hit(op.mode, op.nearby, p)
    requires op.mode.Exact? && Occ(list, op.nearby) > 0 ==> p == op.nearby
    ensures Occ(list', p) == 0
    ensures Answers(usable, pend, autoVacuum, Entered(pages, list, nPage), op, p)
    ensures Entered(pages'[p := op.content], list', nPage) == Applied(Entered(pages, list, nPage), op, p)
  {
    FreeSetRemoved(list, list', p);
    DataTaken(pages, pages', list, list', p, op.content);
    assert p in FreeSet(list);
  }

  /** No page is free, and the file has grown. */
  lemma Added(usable: nat, pend: nat, autoVacuum: bool, pages: map<nat, Page>, nPage: nat, op: Op, p: nat)
    requires op.Alloc? && p > nPage && CanUse(usable, pend, autoVacuum, p)
    requires forall q :: nPage < q < p ==> !CanUse(usable, pend, autoVacuum, q)
    ensures Answers(usable, pend, autoVacuum, Entered(pages, [], nPage), op, p)
    ensures Entered(pages[p := op.content], [], p) == Applied(Entered(pages, [], nPage), op, p)
  {
    assert UsedData(pages[p := op.content], {}) == UsedData(pages, {})[p := op.content];
  }

  lemma Refused(list: seq<Node>, nearby: nat, mode: Mode)
    requires mode.Le?
    ensures (list != [] && forall p: nat :: Hit(mode, nearby, p) ==> Occ(list, p) == 0) <==>
      FreeSet(list) != {} && forall q :: q in FreeSet(list) ==> q > nearby
  {
    NoFree(list);
    forall q: nat ensures q in FreeSet(list) <==> Occ(list, q) > 0 {
      FreeSetMeans(list, q);
    }
    if forall p: nat :: Hit(mode, nearby, p) ==> Occ(list, p) == 0 {
      forall q | q in FreeSet(list) ensures q > nearby {
        assert Occ(list, q) > 0 && !Hit(mode, nearby, q);
      }
    }
    if forall q :: q in FreeSet(list) ==> q > nearby {
      forall p: nat | Hit(mode, nearby, p) ensures Occ(list, p) == 0 {
        assert p in FreeSet(list) <==> Occ(list, p) > 0;
      }
    }
  }

  /** The page handed out, before the caller writes to it. */
  method Ask(fl: FreeList, op: Op, ghost l: Ledger) returns (ok: bool, p: nat)
    requires Books(fl, l) && op.Alloc? && Allowed(fl.usable, fl.pend, fl.autoVacuum, l, op)
    modifies fl`nPage, fl`first, fl`count, fl`pages, fl`list
    ensures !ok <==> NoAnswer(l, op)
    ensures ok ==> fl.Valid() && Occ(fl.list, p) == 0 && (fl.autoVacuum ==> Marked(fl.ptr, fl.list, p))
    ensures ok ==> Answers(fl.usable, fl.pend, fl.autoVacuum, l, op, p)
    ensures ok ==> Entered(fl.pages[p := op.content], fl.list, fl.nPage) == Applied(l, op, p)
  {
    ghost var pages0, list0, nPage0 := fl.pages, fl.list, fl.nPage;
    SizeZero(list0);
    if op.mode.Le? {
      Refused(list0, op.nearby, op.mode);
    }
    var none := fl.count == 0;
    ok, p := fl.AllocateBtreePage(op.nearby, op.mode);
    if ok {
      if none {
        Added(fl.usable, fl.pend, fl.autoVacuum, pages0, nPage0, op, p);
      } else {
        Taken(fl.usable, fl.pend, fl.autoVacuum, pages0, list0, nPage0, fl.pages, fl.list, op, p);
      }
    }
  }

  /** One request, and what the caller does with the page it gets. */
  method Request(fl: FreeList, op: Op, ghost l: Ledger) returns (ok: bool, p: nat)
    requires Books(fl, l) && op.Alloc? && Allowed(fl.usable, fl.pend, fl.autoVacuum, l, op)
    modifies fl
    ensures !ok <==> NoAnswer(l, op)
    ensures ok ==> Answers(fl.usable, fl.pend, fl.autoVacuum, l, op, p) && Books(fl, Applied(l, op, p))
  {
    ok, p := Ask(fl, op, l);
    if ok {
      fl.Store(p, op.e, op.content);
    }
  }

  method Give(fl: FreeList, p: nat, ghost l: Ledger)
    requires Books(fl, l) && Allowed(fl.usable, fl.pend, fl.autoVacuum, l, Release(p))
    modifies fl
    ensures Books(fl, Applied(l, Release(p), 0))
  {
    ghost var pages0, list0 := fl.pages, fl.list;
    FreeSetMeans(list0, p);
    fl.FreePage(p);
    DataFreed(pages0, fl.pages, list0, fl.list, p);
  }

  /** Any run: every page in use holds what was written to it when it was handed out, however often
      pages have been handed out and taken back since; the free list has exactly the other pages,
      and its count is their number; every request gets a right answer, and the run ends early
      only at one that has none. */
  method RunPages(fl: FreeList, ops: seq<Op>, l: Ledger) returns (given: seq<nat>)
    requires Books(fl, l)
    modifies fl
    ensures |given| <= |ops|
    ensures forall i :: 0 <= i < |given| ==> RightAt(fl.usable, fl.pend, fl.autoVacuum, l, ops, given, i)
    ensures var now := LedgerAfter(fl.usable, fl.pend, fl.autoVacuum, l, ops, given);
      if |given| == |ops| then Books(fl, now) && fl.count == |now.free| else NoAnswer(now, ops[|given|])
  {
    given := [];
    var now := l;
    while |given| < |ops|
      invariant |given| <= |ops| && Books(fl, now)
      invariant now == LedgerAfter(fl.usable, fl.pend, fl.autoVacuum, l, ops, given)
      invariant forall i :: 0 <= i < |given| ==> RightAt(fl.usable, fl.pend, fl.autoVacuum, l, ops, given, i)
    {
      var op, p := ops[|given|], 0;
      if Allowed(fl.usable, fl.pend, fl.autoVacuum, now, op) {
        if op.Alloc? {
          var ok;
          ok, p := Request(fl, op, now);
          if !ok {
            return;
          }
        } else {
          Give(fl, op.p, now);
        }
        now := Applied(now, op, p);
      }
      StillRight(fl.usable, fl.pend, fl.autoVacuum, l, ops, given, p);
      given := given + [p];
    }
    SizeIsCount(fl.list);
  }

  lemma StillRight(usable: nat, pend: nat, autoVacuum: bool, l: Ledger, ops: seq<Op>, given: seq<nat>, p: nat)
    requires |given| < |ops|
    ensures (given + [p])[..|given|] == given
    ensures forall i :: 0 <= i < |given| && RightAt(usable, pend, autoVacuum, l, ops, given, i) ==>
      RightAt(usable, pend, autoVacuum, l, ops, given + [p], i)
  {
    forall i | 0 <= i < |given| && RightAt(usable, pend, autoVacuum, l, ops, given, i)
      ensures RightAt(usable, pend, autoVacuum, l, ops, given + [p], i)
    {
      assert (given + [p])[..i] == given[..i];
    }
  }
}
