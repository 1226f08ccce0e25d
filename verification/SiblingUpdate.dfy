/** The order in which balance_nonroot rewrites the sibling pages.

    The cells being balanced are known only through pointers into the pages that still hold
    them (or into side buffers: divider copies and overflow cells).  Rewriting a page destroys
    whatever was on it, so a cell must be copied to its new page before the page it lives on
    is rewritten. */
module SiblingUpdate {
  import opened Packing

  /** A sibling page: its content, and how often that has been rewritten. */
  datatype Page<T> = Page(cells: seq<T>, rewrites: nat)

  function Rewrite<T>(p: Page<T>, content: seq<T>): Page<T> {
    Page(content, p.rewrites + 1)
  }

  /** Cell boundaries that never decrease; those of the old siblings repeat the number of
      cells for siblings that did not exist before. */
  ghost predicate Boundaries(cnt: seq<int>, n: nat) {
    forall j :: 0 <= j < |cnt| ==> BoundaryAt(cnt, n, j)
  }

  ghost predicate BoundaryAt(cnt: seq<int>, n: nat, j: nat)
    requires j < |cnt|
  {
    0 <= Before(cnt, j) <= cnt[j] <= n
  }

  lemma {:induction false} BoundariesRise(cnt: seq<int>, n: nat, i: nat, j: nat)
    requires Boundaries(cnt, n) && i <= j < |cnt|
    ensures 0 <= cnt[i] <= cnt[j] <= n
    decreases j
  {
    assert BoundaryAt(cnt, n, j);
    if i < j {
      BoundariesRise(cnt, n, i, j - 1);
    }
  }

  /** `home[c]` is the page cell c lives on, or -1 for a cell in a side buffer. */
  ghost predicate Located(home: seq<int>, cntOld: seq<int>, d: nat, nOld: nat)
    requires nOld <= |cntOld|
  {
    forall c :: 0 <= c < |home| ==> LocatedAt(home, cntOld, d, nOld, c)
  }

  ghost predicate LocatedAt(home: seq<int>, cntOld: seq<int>, d: nat, nOld: nat, c: nat)
    requires nOld <= |cntOld| && c < |home|
  {
    home[c] >= 0 ==> home[c] < nOld && Start(cntOld, home[c], d) <= c < cntOld[home[c]]
  }

  /** What reading the pointer to cell c gives: `junk` once its page is gone. */
  function Fetch<T>(cells: seq<T>, home: seq<int>, cntOld: seq<int>, d: nat, pages: seq<Page<T>>, junk: T, c: nat): T
    requires c < |cells| == |home|
  {
    if home[c] < 0 then cells[c]
    else if home[c] < |pages| && home[c] < |cntOld| then
      var q, slot := pages[home[c]], c - Start(cntOld, home[c], d);
      if q.rewrites == 0 && 0 <= slot < |q.cells| then q.cells[slot] else junk
    else junk
  }

  /** Every page still to be read is intact. */
  ghost predicate MemoryAt<T>(cells: seq<T>, cntOld: seq<int>, d: nat, pages: seq<Page<T>>, done: seq<bool>, j: nat)
    requires j < |cntOld| <= |pages|
  {
    && 0 <= Start(cntOld, j, d) <= cntOld[j] <= |cells|
    && ((j < |done| && done[j]) || pages[j] == Page(PageCells(cells, cntOld, d, j), 0))
  }

  /** Page p was rewritten on the way down exactly when no cell moves left across its left edge. */
  ghost predicate DownDone(cntOld: seq<int>, cntNew: seq<int>, p: nat)
    requires p < |cntNew| <= |cntOld|
  {
    p > 0 && cntOld[p - 1] >= cntNew[p - 1]
  }

  /** Which pages are done before position i of the two passes, -(nNew - 1) .. nNew - 1. */
  ghost predicate Progress(cntOld: seq<int>, cntNew: seq<int>, done: seq<bool>, i: int)
    requires |done| == |cntNew| <= |cntOld|
  {
    forall j :: 0 <= j < |done| ==>
      done[j] == if i <= 0 then j > -i && DownDone(cntOld, cntNew, j) else j < i || DownDone(cntOld, cntNew, j)
  }

  /** It is the turn of page p at position i. */
  ghost predicate Turn(cntOld: seq<int>, cntNew: seq<int>, done: seq<bool>, i: int, p: nat)
    requires |done| == |cntNew| <= |cntOld|
  {
    && Progress(cntOld, cntNew, done, i) && p < |cntNew| && (i == p || i + p == 0) && !done[p]
    && (i >= 0 || DownDone(cntOld, cntNew, p))
  }

  /** After position i, page p's turn taken if it was. */
  lemma ProgressOn(cntOld: seq<int>, cntNew: seq<int>, done: seq<bool>, i: int, p: nat)
    requires |done| == |cntNew| <= |cntOld| && Progress(cntOld, cntNew, done, i)
    requires p < |cntNew| && (i == p || i + p == 0)
    ensures Progress(cntOld, cntNew, if Turn(cntOld, cntNew, done, i, p) then done[p := true] else done, i + 1)
  {
  }

  /** The pages on which the cells of new page p live have not been rewritten when it is p's turn. */
  lemma NotYet(home: seq<int>, n: nat, cntOld: seq<int>, cntNew: seq<int>, d: nat, nOld: nat, done: seq<bool>, i: int,
               p: nat, c: nat)
    requires nOld <= |cntOld| && |cntNew| == |done| <= |cntOld|
    requires Boundaries(cntOld, n) && Boundaries(cntNew, n) && Located(home, cntOld, d, nOld)
    requires Turn(cntOld, cntNew, done, i, p) && Start(cntNew, p, d) <= c < cntNew[p] && c < |home|
    ensures 0 <= home[c] < |done| ==> !done[home[c]]
  {
    var j := home[c];
    assert LocatedAt(home, cntOld, d, nOld, c);
    if 0 <= j < p {
      BoundariesRise(cntOld, n, j, p - 1);
    } else if p < j < |done| {
      BoundariesRise(cntNew, n, p, j - 1);
    }
  }

  /** So all its cells can be read. */
  lemma ReadInTime<T>(cells: seq<T>, home: seq<int>, cntOld: seq<int>, cntNew: seq<int>, d: nat, nOld: nat,
                      pages: seq<Page<T>>, done: seq<bool>, junk: T, i: int, p: nat, c: nat)
    requires nOld <= |cntOld| <= |pages|
    requires |cntNew| == |done| <= |cntOld| && |cells| == |home|
    requires Boundaries(cntOld, |cells|) && Boundaries(cntNew, |cells|)
    requires Located(home, cntOld, d, nOld) && Turn(cntOld, cntNew, done, i, p)
    requires forall j :: 0 <= j < nOld ==> MemoryAt(cells, cntOld, d, pages, done, j)
    requires Start(cntNew, p, d) <= c < cntNew[p] && c < |cells|
    ensures Fetch(cells, home, cntOld, d, pages, junk, c) == cells[c]
  {
    NotYet(home, |cells|, cntOld, cntNew, d, nOld, done, i, p, c);
    assert LocatedAt(home, cntOld, d, nOld, c);
    if home[c] >= 0 {
      assert MemoryAt(cells, cntOld, d, pages, done, home[c]);
    }
  }

  /** The cells `lo .. hi` read through their pointers, which is what editPage copies. */
  function Gather<T>(cells: seq<T>, home: seq<int>, cntOld: seq<int>, d: nat, pages: seq<Page<T>>, junk: T,
                     lo: nat, hi: nat): (q: seq<T>)
    requires lo <= hi <= |cells| == |home|
    ensures |q| == hi - lo
    ensures forall x :: 0 <= x < |q| ==> q[x] == Fetch(cells, home, cntOld, d, pages, junk, lo + x)
  {
    seq(hi - lo, x requires 0 <= x < hi - lo => Fetch(cells, home, cntOld, d, pages, junk, lo + x))
  }

  ghost predicate RangeAt(cnt: seq<int>, d: nat, n: nat, j: nat)
    requires j < |cnt|
  {
    0 <= Start(cnt, j, d) <= cnt[j] <= n
  }

  /** The state of the update before position i. */
  ghost predicate Passing<T>(cells: seq<T>, cntOld: seq<int>, cntNew: seq<int>, d: nat, nOld: nat,
                             pages: seq<Page<T>>, done: seq<bool>, i: int)
    requires nOld <= |cntOld| <= |pages| && |done| == |cntNew| <= |cntOld|
  {
    && (forall j :: 0 <= j < |cntNew| ==> RangeAt(cntNew, d, |cells|, j))
    && (forall j :: 0 <= j < nOld ==> MemoryAt(cells, cntOld, d, pages, done, j))
    && Progress(cntOld, cntNew, done, i)
    && (forall j :: 0 <= j < |done| && done[j] ==> WrittenAt(cells, cntNew, d, pages, j))
    && (forall j :: 0 <= j < |done| && !done[j] ==> pages[j].rewrites == 0)
  }

  ghost predicate WrittenAt<T>(cells: seq<T>, cntNew: seq<int>, d: nat, pages: seq<Page<T>>, j: nat)
    requires j < |cntNew| <= |pages|
  {
    RangeAt(cntNew, d, |cells|, j) && pages[j] == Page(PageCells(cells, cntNew, d, j), 1)
  }

  /** Rewriting page |i| at position i with what the pointers give. */
  lemma PassStep<T>(cells: seq<T>, home: seq<int>, cntOld: seq<int>, cntNew: seq<int>, d: nat, nOld: nat,
                    pages: seq<Page<T>>, done: seq<bool>, junk: T, i: int, p: nat, content: seq<T>)
    requires nOld <= |cntOld| <= |pages| && |done| == |cntNew| <= |cntOld| && |cells| == |home|
    requires Boundaries(cntOld, |cells|) && Boundaries(cntNew, |cells|)
    requires Located(home, cntOld, d, nOld)
    requires Passing(cells, cntOld, cntNew, d, nOld, pages, done, i)
    requires Turn(cntOld, cntNew, done, i, p)
    requires RangeAt(cntNew, d, |cells|, p)
    requires content == Gather(cells, home, cntOld, d, pages, junk, Start(cntNew, p, d), cntNew[p])
    ensures Passing(cells, cntOld, cntNew, d, nOld, pages[p := Rewrite(pages[p], content)], done[p := true], i + 1)
  {
    var lo := Start(cntNew, p, d);
    forall x | 0 <= x < |content|
      ensures content[x] == cells[lo + x]
    {
      ReadInTime(cells, home, cntOld, cntNew, d, nOld, pages, done, junk, i, p, lo + x);
    }
    assert content == PageCells(cells, cntNew, d, p);
    var pages', done' := pages[p := Rewrite(pages[p], content)], done[p := true];
    forall j | 0 <= j < nOld
      ensures MemoryAt(cells, cntOld, d, pages', done', j)
    {
      assert MemoryAt(cells, cntOld, d, pages, done, j);
    }
    forall j | 0 <= j < |done'| && done'[j]
      ensures WrittenAt(cells, cntNew, d, pages', j)
    {
      assert j == p || WrittenAt(cells, cntNew, d, pages, j);
    }
  }

  /** The two passes over the new siblings, down and then up again.  Whatever rubbish a
      pointer into a rewritten page would yield, every new sibling ends up with its own
      cells, and each is rewritten exactly once. */
  method UpdateSiblings<T>(cells: seq<T>, home: seq<int>, cntOld: seq<int>, cntNew: seq<int>, d: nat, nOld: nat,
                           pages: array<Page<T>>, junk: T)
    requires nOld <= |cntOld| == pages.Length && 0 < |cntNew| <= |cntOld| && |cells| == |home|
    requires Boundaries(cntOld, |cells|) && Boundaries(cntNew, |cells|)
    requires forall j :: 0 <= j < |cntNew| ==> RangeAt(cntNew, d, |cells|, j)
    requires Located(home, cntOld, d, nOld)
    requires forall j :: 0 <= j < nOld ==> MemoryAt(cells, cntOld, d, pages[..], [], j)
    requires forall j :: 0 <= j < pages.Length ==> pages[j].rewrites == 0
    modifies pages
    ensures forall j :: 0 <= j < |cntNew| ==> WrittenAt(cells, cntNew, d, pages[..], j)
    ensures forall j :: |cntNew| <= j < pages.Length ==> pages[j] == old(pages[j])
  {
    var nNew := |cntNew|;
    var abDone := new bool[nNew](_ => false);
    var i := 1 - nNew;
    Begin(cells, cntOld, cntNew, d, nOld, pages[..], abDone[..]);
    while i < nNew
      invariant 1 - nNew <= i <= nNew
      invariant Passing(cells, cntOld, cntNew, d, nOld, pages[..], abDone[..], i)
      invariant forall j :: nNew <= j < pages.Length ==> pages[j] == old(pages[j])
    {
      var iPg := if i < 0 then -i else i;
      ghost var pages0, done0 := pages[..], abDone[..];
      if !abDone[iPg] && (i >= 0 || cntOld[iPg - 1] >= cntNew[iPg - 1]) {
        assert RangeAt(cntNew, d, |cells|, iPg);
        var iNew := if iPg == 0 then 0 else cntNew[iPg - 1] + d;
        var content := Gather(cells, home, cntOld, d, pages[..], junk, iNew, cntNew[iPg]);
        pages[iPg] := Rewrite(pages[iPg], content);
        abDone[iPg] := true;
        PassStep(cells, home, cntOld, cntNew, d, nOld, pages0, done0, junk, i, iPg, content);
        assert pages[..] == pages0[iPg := Rewrite(pages0[iPg], content)] && abDone[..] == done0[iPg := true];
      } else {
        Skip(cells, cntOld, cntNew, d, nOld, pages[..], abDone[..], i, iPg);
      }
      i := i + 1;
    }
  }

  lemma Begin<T>(cells: seq<T>, cntOld: seq<int>, cntNew: seq<int>, d: nat, nOld: nat, pages: seq<Page<T>>,
                 done: seq<bool>)
    requires nOld <= |cntOld| <= |pages| && 0 < |done| == |cntNew| <= |cntOld|
    requires forall j :: 0 <= j < |cntNew| ==> RangeAt(cntNew, d, |cells|, j)
    requires forall j :: 0 <= j < nOld ==> MemoryAt(cells, cntOld, d, pages, [], j)
    requires forall j :: 0 <= j < |done| ==> !done[j]
    requires forall j :: 0 <= j < |pages| ==> pages[j].rewrites == 0
    ensures Passing(cells, cntOld, cntNew, d, nOld, pages, done, 1 - |cntNew|)
  {
    forall j | 0 <= j < nOld
      ensures MemoryAt(cells, cntOld, d, pages, done, j)
    {
      assert MemoryAt(cells, cntOld, d, pages, [], j);
    }
  }

  lemma Skip<T>(cells: seq<T>, cntOld: seq<int>, cntNew: seq<int>, d: nat, nOld: nat,
                pages: seq<Page<T>>, done: seq<bool>, i: int, p: nat)
    requires nOld <= |cntOld| <= |pages| && |done| == |cntNew| <= |cntOld|
    requires Passing(cells, cntOld, cntNew, d, nOld, pages, done, i)
    requires p < |cntNew| && (i == p || i + p == 0)
    requires done[p] || (i < 0 && !DownDone(cntOld, cntNew, p))
    ensures Passing(cells, cntOld, cntNew, d, nOld, pages, done, i + 1)
  {
  }

  /** The whole redistribution: the rewritten siblings and the dividers taken from between
      them read the same, left to right, as the old siblings and their dividers did. */
  lemma RedistributionKeepsCells<T>(cells: seq<T>, d: nat, cntOld: seq<int>, oldPages: seq<seq<T>>, oldDiv: seq<T>,
                                    cntNew: seq<int>, newPages: seq<seq<T>>, newDiv: seq<T>)
    requires d <= 1 && Holds(oldPages, oldDiv, cells, cntOld, d)
    requires 0 < |newPages| == |cntNew| && cntNew[|cntNew| - 1] == |cells|
    requires forall j :: 0 <= j < |cntNew| ==>
      RangeAt(cntNew, d, |cells|, j) && newPages[j] == PageCells(cells, cntNew, d, j)
    requires |newDiv| == (if d == 0 then 0 else |cntNew| - 1)
    requires forall j :: 0 <= j < |newDiv| ==> 0 <= cntNew[j] < |cells| && newDiv[j] == cells[cntNew[j]]
    ensures ReadAcross(newPages, newDiv, 0) == ReadAcross(oldPages, oldDiv, 0)
  {
    HoldsAll(oldPages, oldDiv, cells, cntOld, d, 0);
    forall j | 0 <= j < |cntNew|
      ensures HoldsAt(newPages, newDiv, cells, cntNew, d, j)
    {
      assert RangeAt(cntNew, d, |cells|, j);
    }
    HoldsAll(newPages, newDiv, cells, cntNew, d, 0);
  }
}
