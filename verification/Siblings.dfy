/** The sibling pages of balance_nonroot rewritten in place, byte for byte: the order of the two
    passes and editPage together. */
module Siblings {
  import opened Bytes
  import opened Blocks
  import opened PageImage
  import opened PageEdit
  import opened EditInPlace
  import opened MemPageModel
  import opened MemPageEdit
  import opened Packing
  import opened SiblingUpdate

  // ----- pointers to cells

  /** An entry of apCell: it points into a sibling page, or to a side buffer. */
  datatype Loc = On(page: nat, pos: nat) | Side(bytes: seq<byte>)

  /** The n bytes that a pointer leads to, mem being what the sibling pages hold now. */
  function Read(mem: seq<seq<byte>>, x: Loc, n: nat): seq<byte> {
    match x
    case Side(bytes) => bytes
    case On(q, pos) => if q < |mem| && pos + n <= |mem[q]| then mem[q][pos..pos + n] else []
  }

  /** All cells, as the pointers give them. */
  function AllBytes(mem: seq<seq<byte>>, apCell: seq<Loc>, sz: seq<nat>): (r: seq<seq<byte>>)
    requires |sz| == |apCell|
    ensures |r| == |apCell| && forall c :: 0 <= c < |r| ==> r[c] == Read(mem, apCell[c], sz[c])
  {
    seq(|apCell|, c requires 0 <= c < |apCell| => Read(mem, apCell[c], sz[c]))
  }

  /** A pointer as seen from page `me`. */
  function Seen(mem: seq<seq<byte>>, me: nat, x: Loc, n: nat): Ref {
    if x.On? && x.page == me then Here(x.pos) else There(Read(mem, x, n))
  }

  function View(mem: seq<seq<byte>>, me: nat, apCell: seq<Loc>, sz: seq<nat>): (r: seq<Ref>)
    requires |sz| == |apCell|
    ensures |r| == |apCell| && forall c :: 0 <= c < |r| ==> r[c] == Seen(mem, me, apCell[c], sz[c])
  {
    seq(|apCell|, c requires 0 <= c < |apCell| => Seen(mem, me, apCell[c], sz[c]))
  }

  function Homes(apCell: seq<Loc>): (r: seq<int>)
    ensures |r| == |apCell| && forall c :: 0 <= c < |r| ==> r[c] == if apCell[c].On? then apCell[c].page else -1
  {
    seq(|apCell|, c requires 0 <= c < |apCell| => if apCell[c].On? then apCell[c].page else -1)
  }

  lemma SeenIsRead(mem: seq<seq<byte>>, me: nat, x: Loc, n: nat)
    requires me < |mem|
    ensures OldBytes(mem[me], Seen(mem, me, x, n), n) == Read(mem, x, n)
  {
  }

  /** What editPage is to put on page `me`: the cells lo .. hi. */
  lemma WantedIs(mem: seq<seq<byte>>, me: nat, apCell: seq<Loc>, sz: seq<nat>, lo: nat, hi: nat)
    requires |sz| == |apCell| && lo <= hi <= |apCell| && me < |mem|
    ensures Wanted(mem[me], View(mem, me, apCell, sz), sz, Upto(lo, hi)) == AllBytes(mem, apCell, sz)[lo..hi]
  {
    var w := Wanted(mem[me], View(mem, me, apCell, sz), sz, Upto(lo, hi));
    forall i | 0 <= i < hi - lo ensures w[i] == AllBytes(mem, apCell, sz)[lo + i] {
      SeenIsRead(mem, me, apCell[lo + i], sz[lo + i]);
    }
  }

  // ----- the same page seen at different times

  /** The same cells are on the page, at the same places. */
  ghost predicate Alike(arr: seq<Ref>, arr': seq<Ref>) {
    |arr'| == |arr| && forall c :: 0 <= c < |arr| ==> AlikeAt(arr, arr', c)
  }

  ghost predicate AlikeAt(arr: seq<Ref>, arr': seq<Ref>, c: nat)
    requires c < |arr| == |arr'|
  {
    if arr[c].Here? then arr'[c] == arr[c] else arr'[c].There?
  }

  lemma ViewsAlike(mem: seq<seq<byte>>, mem': seq<seq<byte>>, me: nat, apCell: seq<Loc>, sz: seq<nat>)
    requires |sz| == |apCell|
    ensures Alike(View(mem, me, apCell, sz), View(mem', me, apCell, sz))
  {
  }

  lemma {:induction false} HeresAlike(arr: seq<Ref>, arr': seq<Ref>, lo: nat, hi: nat)
    requires Alike(arr, arr') && lo <= hi <= |arr|
    ensures Heres(arr, lo, hi) == Heres(arr', lo, hi)
    decreases hi - lo
  {
    if lo == hi {
    } else {
      assert AlikeAt(arr, arr', lo);
      HeresAlike(arr, arr', lo + 1, hi);
    }
  }

  lemma OnPageAlike(arr: seq<Ref>, arr': seq<Ref>, sz: seq<nat>)
    requires Alike(arr, arr') && |sz| == |arr|
    ensures OnPage(arr, sz, 0, |arr|) == OnPage(arr', sz, 0, |arr|)
  {
    HeresAlike(arr, arr', 0, |arr|);
    var ix := Heres(arr, 0, |arr|);
    forall i | 0 <= i < |ix| ensures arr'[ix[i]] == arr[ix[i]] {
      assert AlikeAt(arr, arr', ix[i]);
    }
  }

  lemma OverflowsAlike(arr: seq<Ref>, arr': seq<Ref>, iOld: nat, iOldEnd: nat, aiOvfl: seq<nat>)
    requires Alike(arr, arr') && OldRange(arr, iOld, iOldEnd) && Overflows(arr, iOld, iOldEnd, aiOvfl)
    ensures OldRange(arr', iOld, iOldEnd) && Overflows(arr', iOld, iOldEnd, aiOvfl)
  {
    forall c | 0 <= c < |arr'| && !(iOld <= c < iOldEnd) ensures arr'[c].There? {
      assert AlikeAt(arr, arr', c);
    }
    forall j | 0 <= j < |aiOvfl| ensures OverflowAt(arr', iOld, iOldEnd, aiOvfl, j) {
      assert OverflowAt(arr, iOld, iOldEnd, aiOvfl, j) && AlikeAt(arr, arr', iOld + aiOvfl[j]);
    }
    forall c | iOld <= c < iOldEnd ensures MissingAt(arr', iOld, iOldEnd, aiOvfl, 0, c) {
      assert MissingAt(arr, iOld, iOldEnd, aiOvfl, 0, c) && AlikeAt(arr, arr', c);
    }
  }

  lemma StillInArray(p: MemPage, arr: seq<Ref>, arr': seq<Ref>, sz: seq<nat>, iOld: nat)
    requires InArray(p, arr, sz, iOld) && Alike(arr, arr')
    ensures InArray(p, arr', sz, iOld)
  {
    OnPageAlike(arr, arr', sz);
    OverflowsAlike(arr, arr', iOld, iOld + p.nCell + |p.ovfl|, Indices(p.ovfl));
  }

  // ----- one page

  ghost predicate ProperCells(mem: seq<seq<byte>>, g: Shape, apCell: seq<Loc>, sz: seq<nat>) {
    |sz| == |apCell| && forall c :: 0 <= c < |apCell| ==> ProperCell(mem, g, apCell, sz, c)
  }

  /** A cell of the pages' kind, of the size given. */
  ghost predicate ProperCell(mem: seq<seq<byte>>, g: Shape, apCell: seq<Loc>, sz: seq<nat>, c: nat)
    requires c < |apCell| == |sz|
  {
    var b := Read(mem, apCell[c], sz[c]);
    4 <= sz[c] == |b| && g.f(b) == |b|
  }

  ghost predicate Apart(pages: seq<MemPage>) {
    forall i, j :: 0 <= i < |pages| && 0 <= j < |pages| ==> ApartAt(pages, i, j)
  }

  ghost predicate ApartAt(pages: seq<MemPage>, i: nat, j: nat)
    requires i < |pages| && j < |pages|
  {
    i != j ==> pages[i] != pages[j] && pages[i].aData != pages[j].aData
  }

  /** What the pages hold. */
  method Snapshot(pages: seq<MemPage>) returns (mem: seq<seq<byte>>)
    ensures |mem| == |pages| && forall j :: 0 <= j < |pages| ==> mem[j] == pages[j].aData[..]
  {
    mem := [];
    for i := 0 to |pages|
      invariant |mem| == i && forall j :: 0 <= j < i ==> mem[j] == pages[j].aData[..]
    {
      mem := mem + [pages[i].aData[..]];
    }
  }

  /** Cell c is still what it was. */
  ghost predicate StillThere(mem0: seq<seq<byte>>, mem: seq<seq<byte>>, apCell: seq<Loc>, c: nat)
    requires c < |apCell|
  {
    var x := apCell[c];
    x.On? ==> x.page < |mem0| == |mem| && mem[x.page] == mem0[x.page]
  }

  /** ... its page being unchanged. */
  ghost predicate Unmoved(pages: seq<MemPage>, mem0: seq<seq<byte>>, apCell: seq<Loc>, c: nat)
    requires |pages| == |mem0| && c < |apCell|
    reads set j | 0 <= j < |pages| :: pages[j].aData
  {
    var x := apCell[c];
    x.On? ==> x.page < |pages| && pages[x.page].aData[..] == mem0[x.page]
  }

  lemma RangeKept(mem0: seq<seq<byte>>, mem: seq<seq<byte>>, apCell: seq<Loc>, sz: seq<nat>, lo: nat, hi: nat)
    requires |sz| == |apCell| && lo <= hi <= |apCell| && forall c :: lo <= c < hi ==> StillThere(mem0, mem, apCell, c)
    ensures AllBytes(mem, apCell, sz)[lo..hi] == AllBytes(mem0, apCell, sz)[lo..hi]
  {
    forall c | lo <= c < hi ensures AllBytes(mem, apCell, sz)[c] == AllBytes(mem0, apCell, sz)[c] {
      assert StillThere(mem0, mem, apCell, c);
    }
  }

  lemma ProperView(mem0: seq<seq<byte>>, mem: seq<seq<byte>>, me: nat, g: Shape, apCell: seq<Loc>, sz: seq<nat>,
                   lo: nat, hi: nat)
    requires ProperCells(mem0, g, apCell, sz) && lo <= hi <= |apCell| && me < |mem|
    requires forall c :: lo <= c < hi ==> StillThere(mem0, mem, apCell, c)
    ensures Proper(mem[me], g, View(mem, me, apCell, sz), sz, lo, hi)
  {
    var arr := View(mem, me, apCell, sz);
    forall c | lo <= c < hi ensures ProperAt(mem[me], g, arr, sz, c) {
      assert StillThere(mem0, mem, apCell, c) && ProperCell(mem0, g, apCell, sz, c);
      SeenIsRead(mem, me, apCell[c], sz[c]);
    }
  }

  /** The view of page me is proper, and says what the page is to get. */
  lemma ViewIs(mem0: seq<seq<byte>>, mem: seq<seq<byte>>, me: nat, g: Shape, apCell: seq<Loc>, sz: seq<nat>, lo: nat,
               hi: nat)
    requires ProperCells(mem0, g, apCell, sz) && lo <= hi <= |apCell| && me < |mem|
    requires forall c :: lo <= c < hi ==> StillThere(mem0, mem, apCell, c)
    ensures Proper(mem[me], g, View(mem, me, apCell, sz), sz, lo, hi)
    ensures Wanted(mem[me], View(mem, me, apCell, sz), sz, Upto(lo, hi)) == AllBytes(mem0, apCell, sz)[lo..hi]
  {
    ProperView(mem0, mem, me, g, apCell, sz, lo, hi);
    WantedIs(mem, me, apCell, sz, lo, hi);
    RangeKept(mem0, mem, apCell, sz, lo, hi);
  }

  /** The page's cells are in the array as they were, whatever other pages hold by now. */
  lemma ViewStays(p: MemPage, mem0: seq<seq<byte>>, mem: seq<seq<byte>>, me: nat, apCell: seq<Loc>, sz: seq<nat>,
                  iOld: nat)
    requires |sz| == |apCell| && InArray(p, View(mem0, me, apCell, sz), sz, iOld)
    ensures InArray(p, View(mem, me, apCell, sz), sz, iOld)
  {
    ViewsAlike(mem0, mem, me, apCell, sz);
    StillInArray(p, View(mem0, me, apCell, sz), View(mem, me, apCell, sz), sz, iOld);
  }

  /** Page number me gets the cells iNew .. iNew + nNew, which are still where they were. */
  method EditSibling(pages: seq<MemPage>, me: nat, apCell: seq<Loc>, sz: seq<nat>, iOld: nat, iNew: nat, nNew: nat,
                     szNew: nat, ghost mem0: seq<seq<byte>>)
    requires me < |pages| == |mem0| && pages[me].Valid() && ProperCells(mem0, pages[me].g, apCell, sz)
    requires InArray(pages[me], View(mem0, me, apCell, sz), sz, iOld) && iNew + nNew <= |apCell|
    requires szNew == 2 * nNew + Total(sz, iNew, iNew + nNew) && pages[me].g.off + szNew <= pages[me].g.usable
    requires forall c :: iNew <= c < iNew + nNew ==> Unmoved(pages, mem0, apCell, c)
    modifies pages[me], pages[me].aData
    ensures pages[me].Valid() && pages[me].ovfl == []
    ensures pages[me].Contents() == AllBytes(mem0, apCell, sz)[iNew..iNew + nNew]
  {
    var mem := Snapshot(pages);
    ViewStays(pages[me], mem0, mem, me, apCell, sz, iOld);
    forall c | iNew <= c < iNew + nNew ensures StillThere(mem0, mem, apCell, c) {
      assert Unmoved(pages, mem0, apCell, c);
    }
    ViewIs(mem0, mem, me, pages[me].g, apCell, sz, iNew, iNew + nNew);
    EditPage(pages[me], View(mem, me, apCell, sz), sz, iOld, iNew, nNew, szNew);
  }

  // ----- the two passes

  /** iOld of page j: where its cells are in the array; the end of it for a page just allocated. */
  function OldStart(cntOld: seq<int>, d: nat, nOld: nat, n: nat, j: nat): int
    requires j < |cntOld|
  {
    if j == 0 then 0 else if j < nOld then cntOld[j - 1] + d else n
  }

  /** Page j before the update. */
  ghost predicate Ready(p: MemPage, g: Shape, mem0: seq<seq<byte>>, apCell: seq<Loc>, sz: seq<nat>, cntOld: seq<int>,
                        d: nat, nOld: nat, j: nat)
    requires j < |mem0| == |cntOld| && |sz| == |apCell|
    reads p, p.aData
  {
    var iOld := OldStart(cntOld, d, nOld, |apCell|, j);
    p.g == g && p.Valid() && 0 <= iOld && InArray(p, View(mem0, j, apCell, sz), sz, iOld)
  }

  /** szNew of page j: pointers and cells, which fit on a page. */
  ghost predicate Sized(g: Shape, sz: seq<nat>, cntNew: seq<int>, d: nat, szNew: seq<nat>, j: nat)
    requires j < |cntNew| == |szNew|
  {
    && RangeAt(cntNew, d, |sz|, j) && g.off + szNew[j] <= g.usable
    && szNew[j] == 2 * (cntNew[j] - Start(cntNew, j, d)) + Total(sz, Start(cntNew, j, d), cntNew[j])
  }

  /** Page j after it. */
  ghost predicate Filled(p: MemPage, cells: seq<seq<byte>>, cntNew: seq<int>, d: nat, j: nat)
    requires j < |cntNew|
    reads p, p.aData
  {
    p.Valid() && p.ovfl == [] && RangeAt(cntNew, d, |cells|, j) && p.Contents() == PageCells(cells, cntNew, d, j)
  }

  /** What balance_nonroot has worked out before the update. */
  ghost predicate Planned(g: Shape, mem0: seq<seq<byte>>, apCell: seq<Loc>, sz: seq<nat>, cntOld: seq<int>,
                          cntNew: seq<int>, d: nat, nOld: nat, szNew: seq<nat>) {
    && 0 < |cntNew| == |szNew| <= |cntOld| == |mem0| && nOld <= |cntOld|
    && ProperCells(mem0, g, apCell, sz) && Boundaries(cntOld, |apCell|) && Boundaries(cntNew, |apCell|)
    && Located(Homes(apCell), cntOld, d, nOld)
    && forall j :: 0 <= j < |cntNew| ==> Sized(g, sz, cntNew, d, szNew, j)
  }

  /** The turn of page p: the pages not done are as they were. */
  method TakeTurn(pages: seq<MemPage>, apCell: seq<Loc>, sz: seq<nat>, cntOld: seq<int>, cntNew: seq<int>, d: nat,
                  nOld: nat, szNew: seq<nat>, p: nat, ghost done: seq<bool>, ghost i: int, ghost g: Shape,
                  ghost mem0: seq<seq<byte>>)
    requires Planned(g, mem0, apCell, sz, cntOld, cntNew, d, nOld, szNew) && |pages| == |mem0|
    requires |done| == |cntNew| && Turn(cntOld, cntNew, done, i, p)
    requires Ready(pages[p], g, mem0, apCell, sz, cntOld, d, nOld, p)
    requires forall j :: 0 <= j < |pages| && !(j < |done| && done[j]) ==> pages[j].aData[..] == mem0[j]
    modifies pages[p], pages[p].aData
    ensures Filled(pages[p], AllBytes(mem0, apCell, sz), cntNew, d, p)
  {
    assert Sized(g, sz, cntNew, d, szNew, p);
    var iNew := if p == 0 then 0 else cntNew[p - 1] + d;
    var iOld := OldStart(cntOld, d, nOld, |apCell|, p);
    forall c | iNew <= c < cntNew[p] ensures Unmoved(pages, mem0, apCell, c) {
      assert LocatedAt(Homes(apCell), cntOld, d, nOld, c);
      NotYet(Homes(apCell), |apCell|, cntOld, cntNew, d, nOld, done, i, p, c);
    }
    EditSibling(pages, p, apCell, sz, iOld, iNew, cntNew[p] - iNew, szNew[p], mem0);
  }

  /** Page j as it was, or with its new cells. */
  ghost predicate PageAt(p: MemPage, g: Shape, mem0: seq<seq<byte>>, apCell: seq<Loc>, sz: seq<nat>, cntOld: seq<int>,
                         cntNew: seq<int>, d: nat, nOld: nat, done: bool, j: nat)
    requires j < |mem0| == |cntOld| && |sz| == |apCell|
    reads p, p.aData
  {
    if done then j < |cntNew| && Filled(p, AllBytes(mem0, apCell, sz), cntNew, d, j)
    else p.aData[..] == mem0[j] && (j < |cntNew| ==> Ready(p, g, mem0, apCell, sz, cntOld, d, nOld, j))
  }

  predicate Done(done: seq<bool>, j: nat) {
    j < |done| && done[j]
  }

  /** All pages, each as it was or with its new cells. */
  ghost predicate AllPages(pages: seq<MemPage>, g: Shape, mem0: seq<seq<byte>>, apCell: seq<Loc>, sz: seq<nat>,
                          cntOld: seq<int>, cntNew: seq<int>, d: nat, nOld: nat, done: seq<bool>)
    requires |pages| == |mem0| == |cntOld| && |sz| == |apCell|
    reads pages, set j | 0 <= j < |pages| :: pages[j].aData
  {
    forall j :: 0 <= j < |pages| ==>
      PageAt(pages[j], g, mem0, apCell, sz, cntOld, cntNew, d, nOld, Done(done, j), j)
  }

  /** The turn of page p; the other pages are left alone. */
  method Advance(pages: seq<MemPage>, apCell: seq<Loc>, sz: seq<nat>, cntOld: seq<int>, cntNew: seq<int>, d: nat,
                 nOld: nat, szNew: seq<nat>, p: nat, done: seq<bool>, ghost i: int, ghost g: Shape,
                 ghost mem0: seq<seq<byte>>)
    requires Planned(g, mem0, apCell, sz, cntOld, cntNew, d, nOld, szNew) && |pages| == |mem0| && Apart(pages)
    requires |done| == |cntNew| && Turn(cntOld, cntNew, done, i, p)
    requires AllPages(pages, g, mem0, apCell, sz, cntOld, cntNew, d, nOld, done)
    modifies pages[p], pages[p].aData
    ensures AllPages(pages, g, mem0, apCell, sz, cntOld, cntNew, d, nOld, done[p := true])
  {
    assert !Done(done, p) && PageAt(pages[p], g, mem0, apCell, sz, cntOld, cntNew, d, nOld, Done(done, p), p);
    forall j | 0 <= j < |pages| && !(j < |done| && done[j]) ensures pages[j].aData[..] == mem0[j] {
      assert PageAt(pages[j], g, mem0, apCell, sz, cntOld, cntNew, d, nOld, Done(done, j), j);
    }
    TakeTurn(pages, apCell, sz, cntOld, cntNew, d, nOld, szNew, p, done, i, g, mem0);
    forall j | 0 <= j < |pages|
      ensures PageAt(pages[j], g, mem0, apCell, sz, cntOld, cntNew, d, nOld, Done(done[p := true], j), j)
    {
      assert ApartAt(pages, j, p);
      assert Done(done[p := true], j) == (j == p || Done(done, j));
    }
  }

  /** Position i of the two passes. */
  method Round(pages: seq<MemPage>, apCell: seq<Loc>, sz: seq<nat>, cntOld: seq<int>, cntNew: seq<int>, d: nat,
               nOld: nat, szNew: seq<nat>, abDone0: seq<bool>, i: int, ghost g: Shape, ghost mem0: seq<seq<byte>>)
    returns (abDone: seq<bool>)
    requires Planned(g, mem0, apCell, sz, cntOld, cntNew, d, nOld, szNew) && |pages| == |mem0| && Apart(pages)
    requires |abDone0| == |cntNew| && -|cntNew| < i < |cntNew| && Progress(cntOld, cntNew, abDone0, i)
    requires AllPages(pages, g, mem0, apCell, sz, cntOld, cntNew, d, nOld, abDone0)
    modifies pages[..|cntNew|], set j | 0 <= j < |cntNew| :: pages[j].aData
    ensures |abDone| == |cntNew| && Progress(cntOld, cntNew, abDone, i + 1)
    ensures AllPages(pages, g, mem0, apCell, sz, cntOld, cntNew, d, nOld, abDone)
  {
    var iPg := if i < 0 then -i else i;
    ProgressOn(cntOld, cntNew, abDone0, i, iPg);
    abDone := abDone0;
    if !abDone0[iPg] && (i >= 0 || cntOld[iPg - 1] >= cntNew[iPg - 1]) {
      Advance(pages, apCell, sz, cntOld, cntNew, d, nOld, szNew, iPg, abDone0, i, g, mem0);
      abDone := abDone0[iPg := true];
    }
  }

  /** The update of the sibling pages: whichever way the cells move, every new sibling ends up
      well formed, with exactly its cells, each byte for byte what it was at the start. */
  method UpdatePages(pages: seq<MemPage>, apCell: seq<Loc>, sz: seq<nat>, cntOld: seq<int>, cntNew: seq<int>, d: nat,
                     nOld: nat, szNew: seq<nat>, ghost g: Shape, ghost mem0: seq<seq<byte>>)
    requires Planned(g, mem0, apCell, sz, cntOld, cntNew, d, nOld, szNew) && |pages| == |mem0| && Apart(pages)
    requires AllPages(pages, g, mem0, apCell, sz, cntOld, cntNew, d, nOld, [])
    modifies pages[..|cntNew|], set j | 0 <= j < |cntNew| :: pages[j].aData
    ensures forall j :: 0 <= j < |cntNew| ==> Filled(pages[j], AllBytes(mem0, apCell, sz), cntNew, d, j)
  {
    var nNew := |cntNew|;
    var abDone := seq(nNew, _ => false);
    NoneDone(pages, g, mem0, apCell, sz, cntOld, cntNew, d, nOld, abDone);
    for i := 1 - nNew to nNew
      invariant |abDone| == nNew && Progress(cntOld, cntNew, abDone, i)
      invariant AllPages(pages, g, mem0, apCell, sz, cntOld, cntNew, d, nOld, abDone)
    {
      abDone := Round(pages, apCell, sz, cntOld, cntNew, d, nOld, szNew, abDone, i, g, mem0);
    }
    AllDone(pages, g, mem0, apCell, sz, cntOld, cntNew, d, nOld, abDone);
  }

  lemma NoneDone(pages: seq<MemPage>, g: Shape, mem0: seq<seq<byte>>, apCell: seq<Loc>, sz: seq<nat>, cntOld: seq<int>,
                 cntNew: seq<int>, d: nat, nOld: nat, done: seq<bool>)
    requires |pages| == |mem0| == |cntOld| && |sz| == |apCell|
    requires AllPages(pages, g, mem0, apCell, sz, cntOld, cntNew, d, nOld, [])
    requires forall j :: 0 <= j < |done| ==> !done[j]
    ensures AllPages(pages, g, mem0, apCell, sz, cntOld, cntNew, d, nOld, done)
  {
    forall j | 0 <= j < |pages|
      ensures PageAt(pages[j], g, mem0, apCell, sz, cntOld, cntNew, d, nOld, Done(done, j), j)
    {
      assert PageAt(pages[j], g, mem0, apCell, sz, cntOld, cntNew, d, nOld, Done([], j), j);
    }
  }

  lemma AllDone(pages: seq<MemPage>, g: Shape, mem0: seq<seq<byte>>, apCell: seq<Loc>, sz: seq<nat>, cntOld: seq<int>,
                cntNew: seq<int>, d: nat, nOld: nat, done: seq<bool>)
    requires |pages| == |mem0| == |cntOld| && |sz| == |apCell| && |done| == |cntNew| <= |cntOld|
    requires AllPages(pages, g, mem0, apCell, sz, cntOld, cntNew, d, nOld, done)
    requires forall j :: 0 <= j < |done| ==> done[j]
    ensures forall j :: 0 <= j < |cntNew| ==> Filled(pages[j], AllBytes(mem0, apCell, sz), cntNew, d, j)
  {
    forall j | 0 <= j < |cntNew| ensures Filled(pages[j], AllBytes(mem0, apCell, sz), cntNew, d, j) {
      assert PageAt(pages[j], g, mem0, apCell, sz, cntOld, cntNew, d, nOld, Done(done, j), j);
    }
  }

  /** Before the update an old sibling, with its overflow cells, has its part of the same cells. */
  lemma OldContents(p: MemPage, g: Shape, mem0: seq<seq<byte>>, apCell: seq<Loc>, sz: seq<nat>, cntOld: seq<int>,
                    d: nat, nOld: nat, j: nat)
    requires j < |mem0| == |cntOld| && |sz| == |apCell| && p.aData[..] == mem0[j]
    requires Ready(p, g, mem0, apCell, sz, cntOld, d, nOld, j) && j < nOld
    requires cntOld[j] == Start(cntOld, j, d) + p.nCell + |p.ovfl|
    requires forall k :: 0 <= k < |p.ovfl| ==>
      OverflowIs(View(mem0, j, apCell, sz), Start(cntOld, j, d), p.ovfl, k)
    ensures Placed(p.nCell, p.ovfl) && 0 <= Start(cntOld, j, d) <= cntOld[j] <= |apCell|
    ensures p.AllCells() == PageCells(AllBytes(mem0, apCell, sz), cntOld, d, j)
  {
    OwnCells(p, View(mem0, j, apCell, sz), sz, Start(cntOld, j, d));
    WantedIs(mem0, j, apCell, sz, Start(cntOld, j, d), cntOld[j]);
  }
}
