/** editPage on a page in memory: what the array of cells has to do with the page, and what the
    page holds afterwards. */
module MemPageEdit {
  import opened Bytes
  import opened Blocks
  import opened PageLayout
  import opened PageImage
  import opened PageEdit
  import opened EditInPlace
  import opened MemPageModel

  /** aiOvfl of the page. */
  function Indices(ov: seq<Overflow>): (r: seq<nat>)
    ensures |r| == |ov| && forall j :: 0 <= j < |ov| ==> r[j] == ov[j].idx
  {
    seq(|ov|, j requires 0 <= j < |ov| => ov[j].idx)
  }

  ghost predicate OverflowIs(arr: seq<Ref>, iOld: nat, ov: seq<Overflow>, j: nat)
    requires j < |ov|
  {
    iOld + ov[j].idx < |arr| && arr[iOld + ov[j].idx] == There(ov[j].cell)
  }

  /** The cells of the page and its overflow cells are in the array from iOld on; no other cell of
      the array is on the page. */
  ghost predicate InArray(p: MemPage, arr: seq<Ref>, sz: seq<nat>, iOld: nat)
    reads p
  {
    var iOldEnd := iOld + p.nCell + |p.ovfl|;
    && |sz| == |arr| && iOldEnd <= |arr| && p.cells == OnPage(arr, sz, 0, |arr|)
    && OldRange(arr, iOld, iOldEnd) && Overflows(arr, iOld, iOldEnd, Indices(p.ovfl))
  }

  lemma {:induction false} SumIsTotal(cells: seq<Block>, sz: seq<nat>, lo: nat)
    requires lo + |cells| <= |sz| && forall i :: 0 <= i < |cells| ==> cells[i].size == sz[lo + i]
    ensures Sum(cells) == Total(sz, lo, lo + |cells|)
  {
    if cells == [] {
    } else {
      var n := |cells| - 1;
      SumIsTotal(cells[..n], sz, lo);
      assert cells[..n] + [cells[n]] == cells;
      SumAppend(cells[..n], [cells[n]]);
      SumOne(cells[n]);
    }
  }

  /** The cells have the sizes that the array says. */
  lemma SizesAre(d: seq<byte>, d0: seq<byte>, g: Shape, arr: seq<Ref>, sz: seq<nat>, cells: seq<Block>, lo: nat)
    requires Proper(d0, g, arr, sz, lo, lo + |cells|) && forall i :: 0 <= i < |cells| ==> cells[i].End() <= |d|
    requires CellBytes(d, cells) == Wanted(d0, arr, sz, Upto(lo, lo + |cells|))
    ensures Sum(cells) == Total(sz, lo, lo + |cells|)
  {
    var w := Wanted(d0, arr, sz, Upto(lo, lo + |cells|));
    forall i | 0 <= i < |cells| ensures cells[i].size == sz[lo + i] {
      assert ProperAt(d0, g, arr, sz, lo + i);
      assert CellBytes(d, cells)[i] == w[i];
    }
    SumIsTotal(cells, sz, lo);
  }

  /** editPage, and the count of free bytes that its caller then stores: the page is well formed,
      nothing is left over beside it, and it holds exactly the cells iNew .. iNew + nNew of the
      array, each with the bytes it had before the call. */
  method EditPage(p: MemPage, arr: seq<Ref>, sz: seq<nat>, iOld: nat, iNew: nat, nNew: nat, szNew: nat)
    requires p.Valid() && InArray(p, arr, sz, iOld) && Proper(p.aData[..], p.g, arr, sz, iNew, iNew + nNew)
    requires szNew == 2 * nNew + Total(sz, iNew, iNew + nNew) && p.g.off + szNew <= p.g.usable
    modifies p, p.aData
    ensures p.Valid() && p.ovfl == []
    ensures p.Contents() == Wanted(old(p.aData[..]), arr, sz, Upto(iNew, iNew + nNew))
  {
    ghost var d0 := p.aData[..];
    p.top, p.frag, p.cells, p.free :=
      Edit(p.aData, p.g, arr, sz, iOld, iNew, nNew, p.nCell, Indices(p.ovfl), p.top, p.frag, p.free);
    p.nCell := nNew;
    p.ovfl := [];
    p.nFree := p.g.usable - p.g.off - szNew;
    SizesAre(p.aData[..], d0, p.g, arr, sz, p.cells, iNew);
  }

  /** The cells on the page, by number. */
  lemma ContentsAre(d: seq<byte>, arr: seq<Ref>, sz: seq<nat>, lo: nat, hi: nat)
    requires |sz| == |arr| && lo <= hi <= |arr|
    requires forall i :: 0 <= i < |OnPage(arr, sz, lo, hi)| ==> OnPage(arr, sz, lo, hi)[i].End() <= |d|
    ensures CellBytes(d, OnPage(arr, sz, lo, hi)) == Wanted(d, arr, sz, Heres(arr, lo, hi))
  {
    var bs, w := CellBytes(d, OnPage(arr, sz, lo, hi)), Wanted(d, arr, sz, Heres(arr, lo, hi));
    forall i | 0 <= i < |bs| ensures bs[i] == w[i] {
      assert OnPage(arr, sz, lo, hi)[i].End() <= |d|;
    }
  }

  lemma OldOnly(arr: seq<Ref>, iOld: nat, iOldEnd: nat)
    requires OldRange(arr, iOld, iOldEnd)
    ensures Heres(arr, 0, |arr|) == Heres(arr, iOld, iOldEnd)
  {
    HeresSplit(arr, 0, iOld, |arr|);
    HeresSplit(arr, iOld, iOldEnd, |arr|);
    HeresNone(arr, 0, iOld);
    HeresNone(arr, iOldEnd, |arr|);
  }

  /** One more cell wanted. */
  lemma WantedWith(d0: seq<byte>, arr: seq<Ref>, sz: seq<nat>, ix: seq<nat>, at: nat, c: nat, cell: seq<byte>,
                   ix': seq<nat>)
    requires |sz| == |arr| && (forall i :: 0 <= i < |ix| ==> ix[i] < |arr|) && at <= |ix| && c < |arr|
    requires arr[c] == There(cell)
    requires ix' == Opened(ix, at, [c]) && forall i :: 0 <= i < |ix'| ==> ix'[i] < |arr|
    ensures Wanted(d0, arr, sz, ix') == With(Wanted(d0, arr, sz, ix), at, cell)
  {
  }

  lemma PlacedNext(n: nat, ov: seq<Overflow>, i: nat)
    requires i < |ov| && Placed(n, ov[..i]) && ov[i].idx <= n + i
    ensures Placed(n, ov[..i + 1])
  {
    var ov' := ov[..i + 1];
    forall j | 0 <= j < |ov'| ensures ov'[j].idx <= n + j {
      assert j < i ==> ov[..i][j] == ov[j];
    }
  }

  /** Merging overflow cell number i. */
  lemma MergeNext(cs: seq<seq<byte>>, ov: seq<Overflow>, i: nat)
    requires i < |ov| && Placed(|cs|, ov[..i]) && ov[i].idx <= |cs| + i
    ensures Placed(|cs|, ov[..i + 1]) && Merge(cs, ov[..i + 1]) == With(Merge(cs, ov[..i]), ov[i].idx, ov[i].cell)
  {
    var ov' := ov[..i + 1];
    PlacedNext(|cs|, ov, i);
    assert ov' != [] && |ov'| - 1 == i && ov'[..i] == ov[..i] && ov'[i] == ov[i];
  }

  /** After i overflow cells all cells before m are there. */
  ghost predicate MergedTo(cs: seq<seq<byte>>, ov: seq<Overflow>, d0: seq<byte>, arr: seq<Ref>, sz: seq<nat>, iOld: nat,
                           iOldEnd: nat, i: nat, m: nat)
    requires |sz| == |arr| && iOldEnd <= |arr|
  {
    && i <= |ov| && iOld <= m <= iOldEnd && Pending(arr, iOld, iOldEnd, iOld, iOldEnd, Indices(ov), i, m)
    && Placed(|cs|, ov[..i]) && Merge(cs, ov[..i]) == Wanted(d0, arr, sz, Mix(arr, iOld, m, iOldEnd))
  }

  lemma MergeStep(cs: seq<seq<byte>>, ov: seq<Overflow>, d0: seq<byte>, arr: seq<Ref>, sz: seq<nat>, iOld: nat,
                  iOldEnd: nat, i: nat, m: nat)
    requires |sz| == |arr| && OldRange(arr, iOld, iOldEnd) && Overflows(arr, iOld, iOldEnd, Indices(ov)) && i < |ov|
    requires OverflowIs(arr, iOld, ov, i) && MergedTo(cs, ov, d0, arr, sz, iOld, iOldEnd, i, m)
    ensures MergedTo(cs, ov, d0, arr, sz, iOld, iOldEnd, i + 1, iOld + ov[i].idx + 1)
  {
    var c := iOld + ov[i].idx;
    assert OverflowAt(arr, iOld, iOldEnd, Indices(ov), i);
    PendingNext(arr, iOld, iOldEnd, iOld, iOldEnd, Indices(ov), i, m);
    MixSkip(arr, iOld, m, c, iOldEnd);
    MixPut(arr, iOld, c, 1, iOldEnd);
    assert Upto(c, c + 1) == [c];
    WantedWith(d0, arr, sz, Mix(arr, iOld, c, iOldEnd), c - iOld, c, ov[i].cell, Mix(arr, iOld, c + 1, iOldEnd));
    MergeNext(cs, ov, i);
  }

  lemma MergeStart(cs: seq<seq<byte>>, ov: seq<Overflow>, d0: seq<byte>, arr: seq<Ref>, sz: seq<nat>, iOld: nat,
                   iOldEnd: nat)
    requires |sz| == |arr| && OldRange(arr, iOld, iOldEnd) && Overflows(arr, iOld, iOldEnd, Indices(ov))
    requires cs == Wanted(d0, arr, sz, Heres(arr, iOld, iOldEnd))
    ensures MergedTo(cs, ov, d0, arr, sz, iOld, iOldEnd, 0, iOld)
  {
    PendingFirst(arr, iOld, iOldEnd, iOld, iOldEnd, Indices(ov), iOld);
    assert Mix(arr, iOld, iOld, iOldEnd) == Heres(arr, iOld, iOldEnd);
    assert ov[..0] == [];
  }

  lemma {:induction false} MergeFrom(cs: seq<seq<byte>>, ov: seq<Overflow>, d0: seq<byte>, arr: seq<Ref>, sz: seq<nat>,
                                     iOld: nat, iOldEnd: nat, i: nat, m: nat)
    returns (m': nat)
    requires |sz| == |arr| && OldRange(arr, iOld, iOldEnd) && Overflows(arr, iOld, iOldEnd, Indices(ov))
    requires forall j :: 0 <= j < |ov| ==> OverflowIs(arr, iOld, ov, j)
    requires MergedTo(cs, ov, d0, arr, sz, iOld, iOldEnd, i, m)
    ensures MergedTo(cs, ov, d0, arr, sz, iOld, iOldEnd, |ov|, m')
    decreases |ov| - i
  {
    m' := m;
    if i < |ov| {
      assert OverflowIs(arr, iOld, ov, i);
      MergeStep(cs, ov, d0, arr, sz, iOld, iOldEnd, i, m);
      m' := MergeFrom(cs, ov, d0, arr, sz, iOld, iOldEnd, i + 1, iOld + ov[i].idx + 1);
    }
  }

  /** Overflow cells merged in one by one, as they stand in the array. */
  lemma Merged(cs: seq<seq<byte>>, ov: seq<Overflow>, d0: seq<byte>, arr: seq<Ref>, sz: seq<nat>, iOld: nat,
               iOldEnd: nat)
    requires |sz| == |arr| && OldRange(arr, iOld, iOldEnd) && Overflows(arr, iOld, iOldEnd, Indices(ov))
    requires forall j :: 0 <= j < |ov| ==> OverflowIs(arr, iOld, ov, j)
    requires cs == Wanted(d0, arr, sz, Heres(arr, iOld, iOldEnd))
    ensures Placed(|cs|, ov) && Merge(cs, ov) == Wanted(d0, arr, sz, Upto(iOld, iOldEnd))
  {
    MergeStart(cs, ov, d0, arr, sz, iOld, iOldEnd);
    var m := MergeFrom(cs, ov, d0, arr, sz, iOld, iOldEnd, 0, iOld);
    NoneMissing(arr, iOld, iOldEnd, Indices(ov), m);
    assert ov[..|ov|] == ov;
  }

  lemma NoneMissing(arr: seq<Ref>, iOld: nat, iOldEnd: nat, aiOvfl: seq<nat>, m: nat)
    requires iOldEnd <= |arr| && Pending(arr, iOld, iOldEnd, iOld, iOldEnd, aiOvfl, |aiOvfl|, m)
    ensures Mix(arr, iOld, m, iOldEnd) == Upto(iOld, iOldEnd)
  {
    forall c | m <= c < iOldEnd ensures arr[c].Here? {
      assert MissingAt(arr, iOld, iOldEnd, aiOvfl, |aiOvfl|, c);
    }
    MixSkip(arr, iOld, m, iOldEnd, iOldEnd);
  }

  lemma OwnBytes(d: seq<byte>, cells: seq<Block>, ov: seq<Overflow>, arr: seq<Ref>, sz: seq<nat>, iOld: nat,
                 iOldEnd: nat)
    requires |sz| == |arr| && OldRange(arr, iOld, iOldEnd) && Overflows(arr, iOld, iOldEnd, Indices(ov))
    requires (forall j :: 0 <= j < |ov| ==> OverflowIs(arr, iOld, ov, j)) && cells == OnPage(arr, sz, 0, |arr|)
    requires forall i :: 0 <= i < |cells| ==> cells[i].End() <= |d|
    ensures Placed(|cells|, ov) && Merge(CellBytes(d, cells), ov) == Wanted(d, arr, sz, Upto(iOld, iOldEnd))
  {
    ContentsAre(d, arr, sz, 0, |arr|);
    OldOnly(arr, iOld, iOldEnd);
    Merged(CellBytes(d, cells), ov, d, arr, sz, iOld, iOldEnd);
  }

  /** The cells of the array from iOld on are the cells of the page with its overflow cells. */
  lemma OwnCells(p: MemPage, arr: seq<Ref>, sz: seq<nat>, iOld: nat)
    requires p.Valid() && InArray(p, arr, sz, iOld)
    requires forall j :: 0 <= j < |p.ovfl| ==> OverflowIs(arr, iOld, p.ovfl, j)
    ensures Placed(p.nCell, p.ovfl)
    ensures p.AllCells() == Wanted(p.aData[..], arr, sz, Upto(iOld, iOld + p.nCell + |p.ovfl|))
  {
    CellsInside(p.aData[..], p.g, p.top, p.frag, p.cells, [], p.free);
    OwnBytes(p.aData[..], p.cells, p.ovfl, arr, sz, iOld, iOld + p.nCell + |p.ovfl|);
  }
}
