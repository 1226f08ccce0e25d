/** The STAT4 accumulator of ANALYZE: it sees the rows of an index in order and keeps a bounded
    number of sample rows, whose counts it completes when later rows show them to be final. */
module Stat4 {
  import opened Stat4Counts
  import Arithmetic

  datatype Sample = Sample(anEq: seq<nat>, anLt: seq<nat>, anDLt: seq<nat>,
                           rowid: int, isPSample: bool, iCol: nat, iHash: nat)

  /** The rows seen so far: where each differs from the one before, and its rowid. */
  datatype History = History(chng: seq<nat>, rowids: seq<int>, nCol: nat) {
    ghost predicate Ok() {
      Stream(chng, nCol) && |rowids| == |chng|
    }
  }

  /** The number of the sample's row. */
  function RowOf(s: Sample): nat
    requires s.anLt != []
  {
    s.anLt[|s.anLt| - 1]
  }

  /** The sample is a row seen, and its counts of rows and of values less are right. */
  ghost predicate Placed(h: History, s: Sample) {
    && |s.anEq| == |s.anLt| == |s.anDLt| == h.nCol > 0 && |h.rowids| == |h.chng|
    && RowOf(s) < |h.chng| && s.rowid == h.rowids[RowOf(s)]
    && forall j :: 0 <= j < h.nCol ==> LessAt(h, s, j)
  }

  ghost predicate LessAt(h: History, s: Sample, j: nat)
    requires j < |s.anLt| == |s.anDLt| && RowOf(s) < |h.chng|
  {
    s.anLt[j] == Start(h.chng, RowOf(s), j) && s.anDLt[j] == Changes(h.chng, RowOf(s), j)
  }

  /** The count of equal rows is 0 while it may still grow, and right after that. */
  ghost predicate ExactAt(h: History, s: Sample, j: nat)
    requires j < |s.anEq| && s.anLt != [] && RowOf(s) < |h.chng|
  {
    s.anEq[j] == if j + 1 < h.nCol && Open(h.chng, RowOf(s), j) then 0 else Equal(h.chng, RowOf(s), j)
  }

  /** ... or it is the right count if no further row is equal. */
  ghost predicate LooseAt(h: History, s: Sample, j: nat)
    requires j < |s.anEq| && s.anLt != [] && RowOf(s) < |h.chng|
  {
    (s.anEq[j] == 0 && Open(h.chng, RowOf(s), j)) || s.anEq[j] == Equal(h.chng, RowOf(s), j)
  }

  /** Columns from st on are being completed. */
  ghost predicate Staged(h: History, s: Sample, st: nat) {
    Placed(h, s) && forall j :: 0 <= j < h.nCol ==> if j < st then ExactAt(h, s, j) else LooseAt(h, s, j)
  }

  /** The column that made the sample worth keeping. */
  ghost predicate Reason(s: Sample) {
    s.iCol < |s.anEq|
  }

  lemma Weaken(h: History, s: Sample, st: nat, st': nat)
    requires Staged(h, s, st) && st' <= st
    ensures Staged(h, s, st')
  {
    forall j | 0 <= j < h.nCol ensures if j < st' then ExactAt(h, s, j) else LooseAt(h, s, j) {
      assert if j < st then ExactAt(h, s, j) else LooseAt(h, s, j);
    }
  }

  // ----- preference between samples

  /** sampleIsBetterPost from column i on: the first difference decides, else the hash. */
  ghost predicate BetterFrom(x: Sample, y: Sample, i: nat)
    requires |x.anEq| == |y.anEq|
    decreases |x.anEq| - i
  {
    if i >= |x.anEq| then x.iHash > y.iHash
    else if x.anEq[i] != y.anEq[i] then x.anEq[i] > y.anEq[i]
    else BetterFrom(x, y, i + 1)
  }

  method SampleIsBetterPost(x: Sample, y: Sample) returns (r: bool)
    requires |x.anEq| == |y.anEq| && x.iCol == y.iCol
    ensures r == BetterFrom(x, y, x.iCol + 1)
  {
    var i := x.iCol + 1;
    while i < |x.anEq|
      invariant BetterFrom(x, y, x.iCol + 1) == BetterFrom(x, y, i)
      decreases |x.anEq| - i
    {
      if x.anEq[i] > y.anEq[i] {
        return true;
      }
      if x.anEq[i] < y.anEq[i] {
        return false;
      }
      i := i + 1;
    }
    r := x.iHash > y.iHash;
  }

  ghost predicate Better(x: Sample, y: Sample)
    requires |x.anEq| == |y.anEq| && x.iCol < |x.anEq| && y.iCol < |y.anEq|
  {
    var p, q := x.anEq[x.iCol], y.anEq[y.iCol];
    p > q || (p == q && (x.iCol < y.iCol || (x.iCol == y.iCol && BetterFrom(x, y, x.iCol + 1))))
  }

  method SampleIsBetter(x: Sample, y: Sample) returns (r: bool)
    requires |x.anEq| == |y.anEq| && x.iCol < |x.anEq| && y.iCol < |y.anEq|
    ensures r == Better(x, y)
    ensures x.anEq[x.iCol] > y.anEq[y.iCol] ==> r
    ensures x.anEq[x.iCol] < y.anEq[y.iCol] ==> !r
    ensures x.anEq[x.iCol] == y.anEq[y.iCol] && x.iCol != y.iCol ==> (r <==> x.iCol < y.iCol)
  {
    if x.anEq[x.iCol] > y.anEq[y.iCol] {
      return true;
    }
    if x.anEq[x.iCol] == y.anEq[y.iCol] {
      if x.iCol < y.iCol {
        return true;
      }
      if x.iCol == y.iCol {
        r := SampleIsBetterPost(x, y);
        return;
      }
    }
    r := false;
  }

  lemma {:induction false} BetterFromTransitive(x: Sample, y: Sample, z: Sample, i: nat)
    requires |x.anEq| == |y.anEq| == |z.anEq| && BetterFrom(x, y, i) && BetterFrom(y, z, i)
    ensures BetterFrom(x, z, i)
    decreases |x.anEq| - i
  {
    if i >= |x.anEq| || !(x.anEq[i] == y.anEq[i] == z.anEq[i]) {
    } else {
      BetterFromTransitive(x, y, z, i + 1);
    }
  }

  lemma BetterTransitive(x: Sample, y: Sample, z: Sample)
    requires |x.anEq| == |y.anEq| == |z.anEq| && x.iCol < |x.anEq| && y.iCol < |y.anEq| && z.iCol < |z.anEq|
    requires Better(x, y) && Better(y, z)
    ensures Better(x, z)
  {
    if x.anEq[x.iCol] == y.anEq[y.iCol] == z.anEq[z.iCol] && x.iCol == y.iCol == z.iCol {
      BetterFromTransitive(x, y, z, x.iCol + 1);
    }
  }

  /** Two samples agree in the columns lo .. hi. */
  ghost predicate Agree(x: Sample, y: Sample, lo: nat, hi: nat)
    requires |x.anEq| == |y.anEq| && hi <= |x.anEq|
  {
    forall j :: lo <= j < hi ==> x.anEq[j] == y.anEq[j]
  }

  lemma {:induction false} FirstDifference(x: Sample, y: Sample, i: nat, k: nat)
    requires |x.anEq| == |y.anEq| && i <= k <= |x.anEq| && Agree(x, y, i, k)
    requires k < |x.anEq| ==> x.anEq[k] != y.anEq[k]
    ensures BetterFrom(x, y, i) <==> if k < |x.anEq| then x.anEq[k] > y.anEq[k] else x.iHash > y.iHash
    decreases k - i
  {
    if i == k {
    } else {
      FirstDifference(x, y, i + 1, k);
    }
  }

  /** What makes a sample the better one: more rows with the same values in its column; then the
      column further left; then more equal rows in the first later column k in which they differ;
      then the greater hash. */
  lemma BetterMeans(x: Sample, y: Sample, k: nat)
    requires |x.anEq| == |y.anEq| && x.iCol < |x.anEq| && y.iCol < |y.anEq|
    requires x.iCol < k <= |x.anEq| && Agree(x, y, x.iCol + 1, k) && (k < |x.anEq| ==> x.anEq[k] != y.anEq[k])
    ensures var p, q := x.anEq[x.iCol], y.anEq[y.iCol];
      Better(x, y) <==>
        if p != q then p > q
        else if x.iCol != y.iCol then x.iCol < y.iCol
        else if k < |x.anEq| then x.anEq[k] > y.anEq[k]
        else x.iHash > y.iHash
  {
    FirstDifference(x, y, x.iCol + 1, k);
  }

  /** Samples with counts for n columns each. */
  ghost predicate Sized(a: seq<Sample>, n: nat) {
    forall x :: 0 <= x < |a| ==> |a[x].anEq| == n && (!a[x].isPSample ==> a[x].iCol < n)
  }

  ghost function CountP(a: seq<Sample>): (n: nat)
    ensures n <= |a|
  {
    if a == [] then 0 else CountP(a[1..]) + if a[0].isPSample then 1 else 0
  }

  lemma {:induction false} NotAllP(a: seq<Sample>)
    requires forall x :: 0 <= x < |a| ==> a[x].isPSample
    ensures CountP(a) == |a|
  {
    if a == [] {
    } else {
      NotAllP(a[1..]);
    }
  }

  /** The non-periodic sample that no other is less desirable than. */
  method FindMin(a: seq<Sample>, n: nat) returns (iMin: nat)
    requires Sized(a, n) && CountP(a) < |a|
    ensures iMin < |a| && !a[iMin].isPSample
    ensures forall x :: 0 <= x < |a| && !a[x].isPSample ==> !Better(a[iMin], a[x])
  {
    var min := -1;
    var i := 0;
    while i < |a|
      invariant i <= |a| && -1 <= min < i
      invariant min < 0 ==> forall x :: 0 <= x < i ==> a[x].isPSample
      invariant min >= 0 ==> !a[min].isPSample
      invariant min >= 0 ==> forall x :: 0 <= x < i && !a[x].isPSample ==> !Better(a[min], a[x])
    {
      if !a[i].isPSample {
        var b := true;
        if min >= 0 {
          b := SampleIsBetter(a[min], a[i]);
        }
        if b {
          Switch(a, n, min, i);
          min := i;
        }
      }
      i := i + 1;
    }
    if min < 0 {
      NotAllP(a);
    }
    iMin := min;
  }

  lemma Switch(a: seq<Sample>, n: nat, min: int, i: nat)
    requires Sized(a, n) && -1 <= min < i < |a| && !a[i].isPSample
    requires min < 0 ==> forall x :: 0 <= x < i ==> a[x].isPSample
    requires min >= 0 ==> !a[min].isPSample && Better(a[min], a[i])
    requires min >= 0 ==> forall x :: 0 <= x < i && !a[x].isPSample ==> !Better(a[min], a[x])
    ensures forall x :: 0 <= x <= i && !a[x].isPSample ==> !Better(a[i], a[x])
  {
    BetterIrreflexive(a[i], a[i].iCol + 1);
    forall x | 0 <= x < i && !a[x].isPSample ensures !Better(a[i], a[x]) {
      if Better(a[i], a[x]) {
        BetterTransitive(a[min], a[i], a[x]);
      }
    }
  }

  lemma {:induction false} BetterIrreflexive(x: Sample, i: nat)
    ensures !BetterFrom(x, x, i)
    decreases |x.anEq| - i
  {
    if i >= |x.anEq| {
    } else {
      BetterIrreflexive(x, i + 1);
    }
  }

  // ----- the samples kept

  ghost predicate OrderAt(a: seq<Sample>, x: nat, y: nat)
    requires x < |a| && y < |a|
  {
    a[x].anLt != [] && a[y].anLt != [] && RowOf(a[x]) < RowOf(a[y])
  }

  /** Samples of rows in order, with counts completed as far as stage st. */
  ghost predicate Kept(h: History, a: seq<Sample>, st: nat) {
    && (forall x :: 0 <= x < |a| ==> Staged(h, a[x], st) && Reason(a[x]))
    && (forall x, y :: 0 <= x < y < |a| ==> OrderAt(a, x, y))
  }

  ghost predicate NoZeroAt(s: Sample, m: nat) {
    forall j :: m <= j < |s.anEq| ==> s.anEq[j] > 0
  }

  /** nMaxEqZero: from there on no count is still open. */
  ghost predicate ZerosBelow(a: seq<Sample>, m: nat) {
    forall x :: 0 <= x < |a| ==> NoZeroAt(a[x], m)
  }

  ghost predicate MinOk(a: seq<Sample>, iMin: nat, mx: nat) {
    |a| <= mx && (|a| == mx ==> iMin < |a| && !a[iMin].isPSample)
  }

  lemma {:induction false} CountAppend(a: seq<Sample>, b: seq<Sample>)
    ensures CountP(a + b) == CountP(a) + CountP(b)
  {
    if a == [] {
      assert a + b == b;
    } else {
      assert (a + b)[1..] == a[1..] + b;
      CountAppend(a[1..], b);
    }
  }

  function ZeroFirst(s: Sample, n: nat): (r: Sample)
    requires n <= |s.anEq|
    ensures r.anLt == s.anLt && |r.anEq| == |s.anEq|
    ensures forall j :: 0 <= j < |s.anEq| ==> r.anEq[j] == if j < n then 0 else s.anEq[j]
  {
    s.(anEq := seq(|s.anEq|, j requires 0 <= j < |s.anEq| => if j < n then 0 else s.anEq[j]))
  }

  /** What may be inserted at stage st: a periodic sample of the last row, or the sample found
      for column iCol, whose count for that column is now complete. */
  ghost predicate Insertable(h: History, a: seq<Sample>, s: Sample, nEqZero: nat, st: nat) {
    && nEqZero <= |s.anEq| && Staged(h, ZeroFirst(s, nEqZero), st)
    && Reason(ZeroFirst(s, nEqZero)) && NoZeroAt(s, nEqZero)
    && (s.isPSample ==> forall x :: 0 <= x < |a| ==> Before(a[x], s))
    && (!s.isPSample ==> st == nEqZero == s.iCol < h.nCol - 1 && Open(h.chng, RowOf(s), s.iCol)
                         && s.anEq[s.iCol] == Equal(h.chng, RowOf(s), s.iCol)
                         && forall x :: 0 <= x < |a| ==> Exactly(h, a[x], s.iCol))
  }

  ghost predicate Before(s: Sample, t: Sample) {
    s.anLt != [] && t.anLt != [] && RowOf(s) < RowOf(t)
  }

  ghost predicate Exactly(h: History, s: Sample, j: nat) {
    j < |s.anEq| && s.anLt != [] && RowOf(s) < |h.chng| && ExactAt(h, s, j)
  }

  /** A sample whose count for the column is complete comes before one whose count is not. */
  lemma ClosedBefore(h: History, s: Sample, t: Sample, j: nat)
    requires Placed(h, s) && Placed(h, t) && j < h.nCol && Exactly(h, s, j) && s.anEq[j] != 0 && j + 1 < h.nCol
    requires Open(h.chng, RowOf(t), j)
    ensures Before(s, t)
  {
    var b, c, n := RowOf(s), RowOf(t), |h.chng| - 1;
    assert !Open(h.chng, b, j);
    SameStart(h.chng, b, n, j);
    SameStart(h.chng, c, n, j);
  }

  lemma InsertKeeps(h: History, a: seq<Sample>, s: Sample, nEqZero: nat, st: nat, m: nat)
    requires Kept(h, a, st) && Insertable(h, a, s, nEqZero, st) && ZerosBelow(a, m) && nEqZero <= m
    requires !s.isPSample ==> forall x :: 0 <= x < |a| ==> s.iCol < |a[x].anEq| && a[x].anEq[s.iCol] != 0
    ensures Kept(h, a + [ZeroFirst(s, nEqZero)], st) && ZerosBelow(a + [ZeroFirst(s, nEqZero)], m)
  {
    var z := ZeroFirst(s, nEqZero);
    var a' := a + [z];
    forall x | 0 <= x < |a| ensures Before(a[x], z) {
      assert Staged(h, a[x], st);
      if !s.isPSample {
        assert Exactly(h, a[x], s.iCol);
        ClosedBefore(h, a[x], z, s.iCol);
      } else {
        assert Before(a[x], s);
      }
    }
    forall x, y | 0 <= x < y < |a'| ensures OrderAt(a', x, y) {
      if y < |a| {
        assert OrderAt(a, x, y);
      } else {
        assert Before(a[x], z);
      }
    }
    forall x | 0 <= x < |a'| ensures NoZeroAt(a'[x], m) && Staged(h, a'[x], st) && Reason(a'[x]) {
      if x < |a| {
        assert NoZeroAt(a[x], m) && Staged(h, a[x], st);
      } else {
        assert NoZeroAt(s, nEqZero);
      }
    }
  }

  lemma RemoveKeeps(h: History, a: seq<Sample>, i: nat, st: nat, m: nat)
    requires Kept(h, a, st) && ZerosBelow(a, m) && i < |a|
    ensures Kept(h, a[..i] + a[i + 1..], st) && ZerosBelow(a[..i] + a[i + 1..], m)
  {
    var a' := a[..i] + a[i + 1..];
    forall x, y | 0 <= x < y < |a'| ensures OrderAt(a', x, y) {
      assert OrderAt(a, if x < i then x else x + 1, if y < i then y else y + 1);
    }
    forall x | 0 <= x < |a'| ensures Staged(h, a'[x], st) && Reason(a'[x]) && NoZeroAt(a'[x], m) {
      var y := if x < i then x else x + 1;
      assert Staged(h, a[y], st) && NoZeroAt(a[y], m) && a'[x] == a[y];
    }
  }

  lemma CountRemoved(a: seq<Sample>, i: nat)
    requires i < |a| && !a[i].isPSample
    ensures CountP(a[..i] + a[i + 1..]) == CountP(a)
  {
    assert a == a[..i] + a[i..] && a[i..][1..] == a[i + 1..];
    CountAppend(a[..i], a[i..]);
    CountAppend(a[..i], a[i + 1..]);
  }

  lemma CountUpdated(a: seq<Sample>, i: nat, s: Sample)
    requires i < |a| && !a[i].isPSample && !s.isPSample
    ensures CountP(a[i := s]) == CountP(a)
  {
    assert a == a[..i] + a[i..] && a[i..][1..] == a[i + 1..];
    CountAppend(a[..i], a[i..]);
    var b := a[i := s];
    assert b == a[..i] + b[i..] && b[i..][1..] == a[i + 1..];
    CountAppend(a[..i], b[i..]);
  }

  /** A sample of the same values takes over the reason of the new one. */
  function Upgraded(u: Sample, s: Sample): Sample
    requires s.iCol < |s.anEq| == |u.anEq|
  {
    u.(iCol := s.iCol, anEq := u.anEq[s.iCol := s.anEq[s.iCol]])
  }

  lemma UpgradeKeeps(h: History, a: seq<Sample>, s: Sample, u: nat, nEqZero: nat, st: nat, m: nat)
    requires Kept(h, a, st) && Insertable(h, a, s, nEqZero, st) && ZerosBelow(a, m) && !s.isPSample
    requires u < |a| && !a[u].isPSample && s.iCol < |a[u].anEq| == |s.anEq| && a[u].anEq[s.iCol] == 0
    ensures Kept(h, a[u := Upgraded(a[u], s)], st) && ZerosBelow(a[u := Upgraded(a[u], s)], m)
  {
    var v := Upgraded(a[u], s);
    var a' := a[u := v];
    assert Staged(h, a[u], st) && Exactly(h, a[u], s.iCol);
    OpenStop(h.chng, RowOf(a[u]), s.iCol);
    OpenStop(h.chng, RowOf(s), s.iCol);
    assert NoZeroAt(a[u], m);
    forall j | 0 <= j < h.nCol ensures if j < st then ExactAt(h, v, j) else LooseAt(h, v, j) {
      assert if j < st then ExactAt(h, a[u], j) else LooseAt(h, a[u], j);
    }
    forall j | 0 <= j < h.nCol ensures LessAt(h, v, j) {
      assert LessAt(h, a[u], j);
    }
    forall x, y | 0 <= x < y < |a'| ensures OrderAt(a', x, y) {
      assert OrderAt(a, x, y);
    }
  }

  // ----- the rows so far, seen from the last one

  /** The counts of the last row, as far as they can be known. */
  ghost predicate CurrentOk(h: History, s: Sample) {
    && Placed(h, s) && RowOf(s) == |h.chng| - 1
    && forall j :: 0 <= j < h.nCol ==> s.anEq[j] == |h.chng| - Start(h.chng, |h.chng| - 1, j)
  }

  /** The best sample for column i so far: a row that agrees with the last row up to column i,
      and that no later row agrees with in more columns. */
  ghost predicate BestAt(h: History, s: Sample, i: nat) {
    && Placed(h, s) && !s.isPSample && s.iCol == i < h.nCol && Open(h.chng, RowOf(s), i)
    && (RowOf(s) + 1 < |h.chng| ==> h.chng[RowOf(s) + 1] <= i + 1)
    && forall k :: i < k < h.nCol ==> s.anEq[k] == RowOf(s) + 1 - Start(h.chng, RowOf(s), k)
  }

  ghost predicate BestAll(h: History, best: seq<Sample>) {
    |best| == h.nCol && forall i :: 0 <= i < h.nCol - 1 ==> BestAt(h, best[i], i)
  }

  /** With its column's count filled in, the best sample may be inserted. */
  lemma BestInsertable(h: History, a: seq<Sample>, s: Sample, cur: Sample, i: nat)
    requires h.Ok() && Kept(h, a, i + 1) && i + 1 < h.nCol && BestAt(h, s, i) && CurrentOk(h, cur)
    ensures Kept(h, a, i) && Insertable(h, a, s.(anEq := s.anEq[i := cur.anEq[i]]), i, i)
  {
    var b := s.(anEq := s.anEq[i := cur.anEq[i]]);
    var z := ZeroFirst(b, i);
    forall x | 0 <= x < |a| ensures Staged(h, a[x], i) && Exactly(h, a[x], i) {
      assert Staged(h, a[x], i + 1);
      assert ExactAt(h, a[x], i);
      Weaken(h, a[x], i + 1, i);
    }
    var r := RowOf(s);
    OpenStop(h.chng, r, i);
    forall j | 0 <= j < h.nCol
      ensures LessAt(h, z, j) && (j >= i ==> b.anEq[j] == Equal(h.chng, r, j))
      ensures if j < i then ExactAt(h, z, j) else LooseAt(h, z, j)
    {
      assert LessAt(h, s, j);
      if j < i {
        OpenFewer(h.chng, r, j, i);
      }
    }
    assert NoZeroAt(b, i);
  }

  /** A periodic sample of the last row may be inserted. */
  lemma CurrentInsertable(h: History, a: seq<Sample>, s: Sample)
    requires h.Ok() && Kept(h, a, h.nCol) && CurrentOk(h, s) && s.isPSample && s.iCol == 0
    requires forall x :: 0 <= x < |a| ==> Before(a[x], s)
    ensures Insertable(h, a, s, h.nCol - 1, h.nCol)
  {
    var z := ZeroFirst(s, h.nCol - 1);
    forall j | 0 <= j < h.nCol ensures LessAt(h, z, j) && ExactAt(h, z, j) {
      assert LessAt(h, s, j);
    }
  }

  /** The open counts from column c on are filled in with those of the last row. */
  function Fill(s: Sample, cur: Sample, c: nat): (r: Sample)
    requires |s.anEq| == |cur.anEq|
    ensures |r.anEq| == |s.anEq| && r.anLt == s.anLt
    ensures forall j :: 0 <= j < |s.anEq| ==> r.anEq[j] == if j >= c && s.anEq[j] == 0 then cur.anEq[j] else s.anEq[j]
  {
    s.(anEq :=
      seq(|s.anEq|, j requires 0 <= j < |s.anEq| => if j >= c && s.anEq[j] == 0 then cur.anEq[j] else s.anEq[j]))
  }

  /** All counts from column c on are the right ones for the rows so far. */
  ghost predicate Filled(h: History, s: Sample, c: nat) {
    Placed(h, s) && forall j :: 0 <= j < h.nCol ==> FilledAt(h, s, c, j)
  }

  ghost predicate FilledAt(h: History, s: Sample, c: nat, j: nat)
    requires j < |s.anEq| && s.anLt != [] && RowOf(s) < |h.chng|
  {
    if j < c then ExactAt(h, s, j) else s.anEq[j] == Equal(h.chng, RowOf(s), j)
  }

  lemma FillRight(h: History, s: Sample, cur: Sample, c: nat)
    requires Staged(h, s, c) && CurrentOk(h, cur)
    ensures Filled(h, Fill(s, cur, c), c)
    ensures NoZeroAt(s, c) ==> Filled(h, s, c)
  {
    var f := Fill(s, cur, c);
    forall j | 0 <= j < h.nCol
      ensures FilledAt(h, f, c, j) && (NoZeroAt(s, c) ==> FilledAt(h, s, c, j)) && LessAt(h, f, j)
    {
      assert LessAt(h, s, j);
      assert if j < c then ExactAt(h, s, j) else LooseAt(h, s, j);
      if j >= c && Open(h.chng, RowOf(s), j) {
        OpenStop(h.chng, RowOf(s), j);
      }
    }
  }

  // ----- a row more

  function Add(h: History, c: nat, rowid: int): History {
    History(h.chng + [c], h.rowids + [rowid], h.nCol)
  }

  lemma PlacedOn(h: History, c: nat, rowid: int, s: Sample)
    requires Placed(h, s)
    ensures Placed(Add(h, c, rowid), s)
  {
    forall j | 0 <= j < h.nCol ensures LessAt(Add(h, c, rowid), s, j) {
      assert LessAt(h, s, j);
      Grow(h.chng, c, RowOf(s), j);
    }
  }

  lemma FilledOn(h: History, c: nat, rowid: int, s: Sample)
    requires h.Ok() && c < h.nCol && Filled(h, s, c)
    ensures Staged(Add(h, c, rowid), s, h.nCol)
  {
    var h' := Add(h, c, rowid);
    PlacedOn(h, c, rowid, s);
    forall j | 0 <= j < h.nCol ensures ExactAt(h', s, j) {
      assert FilledAt(h, s, c, j);
      Grow(h.chng, c, RowOf(s), j);
    }
  }

  /** Counts of the next row, which differs from the last one from column c on. */
  function Next(s: Sample, c: nat, rowid: int, hash: nat): (r: Sample)
    requires |s.anEq| == |s.anLt| == |s.anDLt|
  {
    var n := |s.anEq|;
    Sample(seq(n, j requires 0 <= j < n => if j < c then s.anEq[j] + 1 else 1),
           seq(n, j requires 0 <= j < n => if j < c then s.anLt[j] else s.anLt[j] + s.anEq[j]),
           seq(n, j requires 0 <= j < n => if j < c then s.anDLt[j] else s.anDLt[j] + 1),
           rowid, s.isPSample, s.iCol, hash)
  }

  lemma NextOk(h: History, s: Sample, c: nat, rowid: int, hash: nat)
    requires h.Ok() && c < h.nCol && CurrentOk(h, s)
    ensures CurrentOk(Add(h, c, rowid), Next(s, c, rowid, hash))
  {
    var h', t, n := Add(h, c, rowid), Next(s, c, rowid, hash), |h.chng|;
    forall j | 0 <= j < h.nCol
      ensures t.anLt[j] == Start(h'.chng, n, j) && t.anDLt[j] == Changes(h'.chng, n, j)
      ensures t.anEq[j] == n + 1 - Start(h'.chng, n, j)
    {
      assert LessAt(h, s, j);
      Grow(h.chng, c, n - 1, j);
      assert h'.chng[n] == c;
    }
  }

  /** The best sample for column i after one more row: the old one if that row agrees with it up
      to column i and is no better. */
  lemma BestOn(h: History, c: nat, rowid: int, s: Sample, cur: Sample, i: nat)
    requires h.Ok() && c < h.nCol && i + 1 < h.nCol && BestAt(h, s, i) && i < c
    requires CurrentOk(Add(h, c, rowid), cur) && cur.iCol == i && !BetterFrom(cur, s, i + 1)
    ensures BestAt(Add(h, c, rowid), s, i)
  {
    var h', n, r := Add(h, c, rowid), |h.chng|, RowOf(s);
    PlacedOn(h, c, rowid, s);
    Grow(h.chng, c, r, i);
    assert !(cur.anEq[i + 1] > s.anEq[i + 1]);
    Grow(h.chng, c, r, i + 1);
    assert c > i + 1 ==> Start(h'.chng, n, i + 1) == Start(h'.chng, n - 1, i + 1);
    forall k | i < k < h.nCol ensures s.anEq[k] == r + 1 - Start(h'.chng, r, k) {
      Grow(h.chng, c, r, k);
    }
  }

  /** What a sample is kept for has nothing to do with its counts. */
  lemma Relabelled(h: History, s: Sample, isPSample: bool, iCol: nat)
    requires CurrentOk(h, s)
    ensures CurrentOk(h, s.(isPSample := isPSample, iCol := iCol))
  {
    var t := s.(isPSample := isPSample, iCol := iCol);
    forall j | 0 <= j < h.nCol ensures LessAt(h, t, j) {
      assert LessAt(h, s, j);
    }
  }

  lemma BestNew(h: History, cur: Sample, i: nat)
    requires h.Ok() && CurrentOk(h, cur) && cur.iCol == i < h.nCol && !cur.isPSample
    ensures BestAt(h, cur, i)
  {
  }

  // ----- the best row of a group

  /** What was known of each row when it was seen: how many rows so far were equal to it. */
  ghost predicate SeenAll(h: History, seen: seq<Sample>) {
    |seen| == |h.chng| == |h.rowids| && forall r :: 0 <= r < |seen| ==> SeenAt(h, seen, r)
  }

  ghost predicate SeenAt(h: History, seen: seq<Sample>, r: nat)
    requires r < |seen| == |h.chng| == |h.rowids|
  {
    && |seen[r].anEq| == h.nCol && seen[r].rowid == h.rowids[r]
    && forall k :: 0 <= k < h.nCol ==> seen[r].anEq[k] == r + 1 - Start(h.chng, r, k)
  }

  /** Of the rows that agree with the last one up to column i, none was better than the sample, as
      far as later columns and the hash go. */
  ghost predicate PickedAt(h: History, seen: seq<Sample>, s: Sample, i: nat) {
    && 0 < |h.chng| == |seen| && i < h.nCol
    && forall r :: Start(h.chng, |h.chng| - 1, i) <= r < |seen| ==> NoBetter(seen, s, i, r)
  }

  ghost predicate NoBetter(seen: seq<Sample>, s: Sample, i: nat, r: int) {
    0 <= r < |seen| && |seen[r].anEq| == |s.anEq| && !BetterFrom(seen[r], s, i + 1)
  }

  ghost predicate PickedAll(h: History, seen: seq<Sample>, best: seq<Sample>) {
    |best| == h.nCol && forall i :: 0 <= i < h.nCol - 1 ==> PickedAt(h, seen, best[i], i)
  }

  ghost predicate Alike(x: Sample, y: Sample) {
    x.anEq == y.anEq && x.iHash == y.iHash
  }

  lemma {:induction false} AlikeBetter(x: Sample, y: Sample, s: Sample, i: nat)
    requires Alike(x, y) && |s.anEq| == |x.anEq|
    ensures BetterFrom(x, s, i) == BetterFrom(y, s, i) && BetterFrom(s, x, i) == BetterFrom(s, y, i)
    decreases |s.anEq| - i
  {
    if i >= |s.anEq| {
    } else {
      AlikeBetter(x, y, s, i + 1);
    }
  }

  lemma SeenOn(h: History, c: nat, rowid: int, seen: seq<Sample>, cur: Sample)
    requires h.Ok() && SeenAll(h, seen) && CurrentOk(Add(h, c, rowid), cur)
    ensures SeenAll(Add(h, c, rowid), seen + [cur])
  {
    var h', seen' := Add(h, c, rowid), seen + [cur];
    forall r | 0 <= r < |seen'| ensures SeenAt(h', seen', r) {
      if r < |seen| {
        assert SeenAt(h, seen, r);
        forall k | 0 <= k < h.nCol ensures seen'[r].anEq[k] == r + 1 - Start(h'.chng, r, k) {
          Grow(h.chng, c, r, k);
        }
      }
    }
  }

  /** One more row, which differs from column c > i on: the same sample if the row is no better,
      else that row. */
  lemma PickedOn(h: History, c: nat, rowid: int, seen: seq<Sample>, s: Sample, last: Sample, cur: Sample, i: nat)
    requires h.Ok() && i < c < h.nCol && PickedAt(h, seen, s, i) && Alike(last, cur) && |s.anEq| == |cur.anEq|
    ensures PickedAt(Add(h, c, rowid), seen + [last], if BetterFrom(cur, s, i + 1) then cur else s, i)
  {
    var h', seen', n := Add(h, c, rowid), seen + [last], |h.chng|;
    var t := if BetterFrom(cur, s, i + 1) then cur else s;
    assert h'.chng[n] == c && h'.chng[..n] == h.chng;
    Grow(h.chng, c, n - 1, i);
    AlikeBetter(last, cur, s, i + 1);
    AlikeBetter(last, cur, cur, i + 1);
    BetterIrreflexive(cur, i + 1);
    forall r | Start(h'.chng, n, i) <= r < |seen'| ensures NoBetter(seen', t, i, r) {
      if r < n {
        assert NoBetter(seen, s, i, r);
        if BetterFrom(cur, s, i + 1) && BetterFrom(seen[r], cur, i + 1) {
          BetterFromTransitive(seen[r], cur, s, i + 1);
        }
      }
    }
  }

  /** ... and which differs from column c <= i on: that row is the only one. */
  lemma PickedNew(h: History, seen: seq<Sample>, cur: Sample, i: nat)
    requires 0 < |h.chng| == |seen| && i < h.nCol && h.chng[|h.chng| - 1] <= i && Alike(seen[|seen| - 1], cur)
    ensures PickedAt(h, seen, cur, i)
  {
    AlikeBetter(seen[|seen| - 1], cur, cur, i + 1);
    BetterIrreflexive(cur, i + 1);
  }

  // ----- periodic samples

  /** How many of the first n rows are due for a periodic sample, one in p. */
  function Due(n: nat, p: nat): nat
    requires p > 0
  {
    n / p
  }

  function Period(nEst: nat, mx: nat): (p: nat)
    ensures p > 0
  {
    nEst / (mx / 3 + 1) + 1
  }

  lemma DueStep(n: nat, p: nat)
    requires p > 0
    ensures Due(n + 1, p) == Due(n, p) || Due(n + 1, p) == Due(n, p) + 1
    ensures Due(n + 1, p) == Due(n, p) + 1 <==> (n + 1) % p == 0
    ensures Due(0, p) == 0
  {
    var q, r := n / p, n % p;
    assert n == q * p + r;
    if r + 1 < p {
      Arithmetic.Euclid(n + 1, p, q, r + 1);
    } else {
      assert n + 1 == (q + 1) * p;
      Arithmetic.Euclid(n + 1, p, q + 1, 0);
    }
    Arithmetic.Euclid(0, p, 0, 0);
  }

  /** There are at most a third as many periodic samples as places for samples. */
  lemma FewPeriodic(nRow: nat, nEst: nat, mx: nat)
    requires nRow <= nEst && mx > 0
    ensures Due(nRow, Period(nEst, mx)) <= mx / 3 < mx
  {
    var q := mx / 3 + 1;
    var p := nEst / q + 1;
    var k := nRow / p;
    assert nRow == k * p + nRow % p;
    assert nEst == (p - 1) * q + nEst % q;
    assert q * p == (p - 1) * q + q;
    if k >= q {
      Times(k, q, p);
    }
  }

  /** ... and with a shorter period there would be more. */
  lemma PeriodTight(nEst: nat, mx: nat)
    requires Period(nEst, mx) > 1
    ensures Due(nEst, Period(nEst, mx) - 1) > mx / 3
  {
    var q := mx / 3 + 1;
    var p := nEst / q;
    var k := nEst / p;
    assert nEst == p * q + nEst % q;
    assert nEst == k * p + nEst % p;
    assert (k + 1) * p == k * p + p;
    if k < q {
      Times(q, k + 1, p);
    }
  }

  lemma Times(a: nat, b: nat, p: nat)
    requires a >= b
    ensures a * p >= b * p
  {
  }

  // ----- inserting a sample

  /** There is a sample, periodic or not, whose count for the column is still open, and which so has
      the same values up to it as the last row. */
  ghost predicate SharedBy(a: seq<Sample>, c: nat, periodic: bool) {
    exists x :: 0 <= x < |a| && c < |a[x].anEq| && a[x].anEq[c] == 0 && a[x].isPSample == periodic
  }

  /** Sample u is such a sample, and no other one is better. */
  ghost predicate BestOf(a: seq<Sample>, c: nat, u: nat) {
    && u < |a| && c < |a[u].anEq| && a[u].anEq[c] == 0 && a[u].iCol < |a[u].anEq|
    && forall x :: 0 <= x < |a| && c < |a[x].anEq| && a[x].anEq[c] == 0 ==>
         |a[x].anEq| == |a[u].anEq| && a[x].iCol < |a[x].anEq| && !Better(a[x], a[u])
  }

  /** A better sample is better than those the best so far was better than. */
  lemma BetterYet(a: seq<Sample>, n: nat, c: nat, i: nat, found: bool, u: nat)
    requires Sized(a, n) && (forall x :: 0 <= x < |a| ==> a[x].iCol < n) && c < n && i < |a|
    requires if found then
               u < |a| && Better(a[i], a[u]) && forall x :: i < x < |a| && a[x].anEq[c] == 0 ==> !Better(a[x], a[u])
             else forall x :: i < x < |a| ==> a[x].anEq[c] != 0
    ensures forall x :: i <= x < |a| && a[x].anEq[c] == 0 ==> !Better(a[x], a[i])
  {
    BetterIrreflexive(a[i], a[i].iCol + 1);
    forall x | i < x < |a| && a[x].anEq[c] == 0 ensures !Better(a[x], a[i]) {
      if Better(a[x], a[i]) {
        BetterTransitive(a[x], a[i], a[u]);
      }
    }
  }

  /** What becomes of the samples when one is inserted, with its first nEqZero counts open.  If
      samples with the same values up to its column are there already, a periodic one makes it
      superfluous, and else the best of them is kept for its reason too.  Otherwise it is added, in
      the place of sample iMin if there is no room. */
  ghost predicate Inserts(a: seq<Sample>, iMin: nat, mx: nat, s: Sample, nEqZero: nat, a': seq<Sample>)
    requires nEqZero <= |s.anEq|
  {
    if !s.isPSample && SharedBy(a, s.iCol, true) then a' == a
    else if !s.isPSample && SharedBy(a, s.iCol, false) then
      exists u: nat :: BestOf(a, s.iCol, u) && s.iCol < |s.anEq| == |a[u].anEq| && a' == a[u := Upgraded(a[u], s)]
    else if |a| < mx then a' == a + [ZeroFirst(s, nEqZero)]
    else iMin < |a| && a' == a[..iMin] + a[iMin + 1..] + [ZeroFirst(s, nEqZero)]
  }

  /** Periodic samples are rows that are due: every p-th. */
  ghost predicate AllDue(a: seq<Sample>, p: nat) {
    p > 0 && forall x :: 0 <= x < |a| ==> DueRow(a[x], p)
  }

  ghost predicate DueRow(s: Sample, p: nat)
    requires p > 0
  {
    s.isPSample ==> s.anLt != [] && (RowOf(s) + 1) % p == 0
  }

  lemma InsertsDue(a: seq<Sample>, iMin: nat, mx: nat, s: Sample, nEqZero: nat, a': seq<Sample>, p: nat)
    requires nEqZero <= |s.anEq| && Inserts(a, iMin, mx, s, nEqZero, a') && AllDue(a, p) && DueRow(s, p)
    ensures AllDue(a', p)
  {
    forall x | 0 <= x < |a'| ensures DueRow(a'[x], p) {
      if x < |a| {
        assert DueRow(a[x], p);
      }
      if 0 <= x + 1 < |a| {
        assert DueRow(a[x + 1], p);
      }
    }
  }

  /** Sample iMin is the one to go next: it is not periodic, and better than no other such sample. */
  ghost predicate Least(a: seq<Sample>, iMin: nat) {
    && iMin < |a| && !a[iMin].isPSample
    && forall x :: 0 <= x < |a| && !a[x].isPSample ==> LeastAt(a, iMin, x)
  }

  /** The sample is better than sample iMin. */
  ghost predicate Beats(s: Sample, a: seq<Sample>, iMin: nat) {
    && iMin < |a| && |s.anEq| == |a[iMin].anEq| && s.iCol < |s.anEq| && a[iMin].iCol < |a[iMin].anEq|
    && Better(s, a[iMin])
  }

  ghost predicate LeastAt(a: seq<Sample>, iMin: nat, x: nat)
    requires x < |a| && iMin < |a|
  {
    |a[x].anEq| == |a[iMin].anEq| && a[x].iCol < |a[x].anEq| && a[iMin].iCol < |a[iMin].anEq| && !Better(a[iMin], a[x])
  }

  class Stat4Accum {
    const nCol: nat
    const mxSample: nat
    const nPSample: nat
    ghost const nEst: nat
    var nRow: nat
    var current: Sample
    var iPrn: nat
    var aBest: seq<Sample>
    var a: seq<Sample>
    var iMin: nat
    var nMaxEqZero: nat
    ghost var h: History
    ghost var seen: seq<Sample>

    /** statInit. */
    constructor (nCol: nat, nEst: nat, mxSample: nat, seed: nat)
      requires 0 < nCol && 0 < mxSample
      ensures Valid() && nRow == 0 && h == History([], [], nCol)
      ensures this.nCol == nCol && this.nEst == nEst && this.mxSample == mxSample
    {
      this.nCol, this.nEst, this.mxSample := nCol, nEst, mxSample;
      nPSample := Period(nEst, mxSample);
      nRow, iPrn, a, iMin, nMaxEqZero := 0, seed, [], 0, 0;
      var zeros := seq(nCol, i => 0);
      current := Sample(zeros, zeros, zeros, 0, false, 0, 0);
      aBest := seq(nCol, (i: nat) => Sample(zeros, zeros, zeros, 0, false, i, 0));
      h, seen := History([], [], nCol), [];
      DueStep(0, Period(nEst, mxSample));
    }

    ghost predicate Shape()
      reads this
    {
      Shape0() && CountP(a) == Due(nRow, nPSample)
    }

    ghost predicate Shape0()
      reads this
    {
      && 0 < nCol == h.nCol && 0 < mxSample && nPSample == Period(nEst, mxSample)
      && nRow == |h.chng| == |h.rowids| && MinOk(a, iMin, mxSample)
      && ZerosBelow(a, nMaxEqZero) && nMaxEqZero <= nCol && !current.isPSample && AllDue(a, nPSample)
    }

    ghost predicate Valid()
      reads this
    {
      && Shape()
      && if nRow == 0 then
           && a == [] && h.chng == [] && seen == [] && |aBest| == nCol
           && |current.anEq| == |current.anLt| == |current.anDLt| == nCol
           && forall j :: 0 <= j < nCol ==> current.anLt[j] == 0 && current.anDLt[j] == 0
         else
           && h.Ok() && Kept(h, a, nCol) && CurrentOk(h, current) && BestAll(h, aBest)
           && SeenAll(h, seen) && Alike(seen[nRow - 1], current) && PickedAll(h, seen, aBest)
    }

    /** Is there a sample of the same values up to the new sample's column already? */
    method FindSame(s: Sample) returns (periodic: bool, found: bool, u: nat)
      requires Sized(a, nCol) && s.iCol < nCol && forall x :: 0 <= x < |a| ==> a[x].iCol < nCol
      ensures found ==> u < |a| && a[u].anEq[s.iCol] == 0 && !a[u].isPSample
      ensures !periodic && !found ==> forall x :: 0 <= x < |a| ==> a[x].anEq[s.iCol] != 0
      ensures periodic <==> SharedBy(a, s.iCol, true)
      ensures !periodic && found ==> BestOf(a, s.iCol, u)
    {
      periodic, found, u := false, false, 0;
      var i := |a|;
      while i > 0
        invariant 0 <= i <= |a| && !periodic
        invariant found ==> u < |a| && a[u].anEq[s.iCol] == 0 && !a[u].isPSample
        invariant !found ==> forall x :: i <= x < |a| ==> a[x].anEq[s.iCol] != 0
        invariant forall x :: i <= x < |a| && a[x].anEq[s.iCol] == 0 ==> !a[x].isPSample
        invariant found ==> forall x :: i <= x < |a| && a[x].anEq[s.iCol] == 0 ==> !Better(a[x], a[u])
      {
        i := i - 1;
        if a[i].anEq[s.iCol] == 0 {
          if a[i].isPSample {
            periodic := true;
            return;
          }
          var b := true;
          if found {
            b := SampleIsBetter(a[i], a[u]);
          }
          if b {
            BetterYet(a, nCol, s.iCol, i, found, u);
            found, u := true, i;
          }
        }
      }
    }

    /** The least desirable sample, if there is room for no more. */
    method NewMin()
      requires Sized(a, nCol) && |a| <= mxSample && CountP(a) < mxSample
      modifies this`iMin
      ensures MinOk(a, iMin, mxSample)
      ensures |a| == mxSample ==> Least(a, iMin)
    {
      if |a| >= mxSample {
        iMin := FindMin(a, nCol);
      }
    }

    /** Append the sample, in the place of the least desirable one if there is no room. */
    method AppendSample(s: Sample, nEqZero: nat, ghost st: nat)
      requires Kept(h, a, st) && Insertable(h, a, s, nEqZero, st) && ZerosBelow(a, nMaxEqZero) && nEqZero <= nMaxEqZero
      requires !s.isPSample ==> forall x :: 0 <= x < |a| ==> s.iCol < |a[x].anEq| && a[x].anEq[s.iCol] != 0
      requires MinOk(a, iMin, mxSample) && 0 < mxSample
      modifies this`a
      ensures Kept(h, a, st) && ZerosBelow(a, nMaxEqZero) && 0 < |a| <= mxSample
      ensures CountP(a) == old(CountP(a)) + if s.isPSample then 1 else 0
      ensures if old(|a|) < mxSample then a == old(a) + [ZeroFirst(s, nEqZero)]
              else a == old(a)[..iMin] + old(a)[iMin + 1..] + [ZeroFirst(s, nEqZero)]
    {
      if |a| >= mxSample {
        RemoveKeeps(h, a, iMin, st, nMaxEqZero);
        CountRemoved(a, iMin);
        StillInsertable(h, a, s, iMin, nEqZero, st);
        a := a[..iMin] + a[iMin + 1..];
      }
      InsertKeeps(h, a, s, nEqZero, st, nMaxEqZero);
      CountAppend(a, [ZeroFirst(s, nEqZero)]);
      assert [ZeroFirst(s, nEqZero)][1..] == [];
      a := a + [ZeroFirst(s, nEqZero)];
    }

    /** If a sample of the same values is there already, it will do for the new one's reason. */
    method ShareReason(s: Sample, nEqZero: nat, ghost st: nat) returns (done: bool)
      requires 0 < nCol == h.nCol && MinOk(a, iMin, mxSample) && ZerosBelow(a, nMaxEqZero) && CountP(a) < mxSample
      requires Kept(h, a, st) && Insertable(h, a, s, nEqZero, st) && !s.isPSample
      modifies this`a, this`iMin
      ensures done <==> SharedBy(old(a), s.iCol, true) || SharedBy(old(a), s.iCol, false)
      ensures Kept(h, a, st) && MinOk(a, iMin, mxSample) && ZerosBelow(a, nMaxEqZero) && CountP(a) == old(CountP(a))
      ensures if done then a != [] && Inserts(old(a), old(iMin), mxSample, s, nEqZero, a) else a == old(a)
      ensures if SharedBy(old(a), s.iCol, true) || !done then iMin == old(iMin) else |a| == mxSample ==> Least(a, iMin)
      ensures !done ==> forall x :: 0 <= x < |a| ==> s.iCol < |a[x].anEq| && a[x].anEq[s.iCol] != 0
    {
      KeptSized(h, a, st);
      var periodic, found, u := FindSame(s);
      done := periodic || found;
      if !periodic && found {
        UpgradeKeeps(h, a, s, u, nEqZero, st, nMaxEqZero);
        CountUpdated(a, u, Upgraded(a[u], s));
        a := a[u := Upgraded(a[u], s)];
        KeptSized(h, a, st);
        NewMin();
      }
    }

    /** sampleInsert. */
    method SampleInsert(s: Sample, nEqZero: nat, ghost st: nat)
      requires 0 < nCol == h.nCol && 0 < mxSample && MinOk(a, iMin, mxSample) && ZerosBelow(a, nMaxEqZero)
      requires nMaxEqZero <= nCol
      requires Kept(h, a, st) && Insertable(h, a, s, nEqZero, st) && nEqZero < nCol
      requires CountP(a) + (if s.isPSample then 1 else 0) < mxSample
      modifies this`a, this`iMin, this`nMaxEqZero
      ensures Kept(h, a, st) && MinOk(a, iMin, mxSample) && ZerosBelow(a, nMaxEqZero) && nMaxEqZero <= nCol
      ensures a != [] && CountP(a) == old(CountP(a)) + if s.isPSample then 1 else 0
      ensures Inserts(old(a), old(iMin), mxSample, s, nEqZero, a)
      ensures if !s.isPSample && SharedBy(old(a), s.iCol, true) then iMin == old(iMin)
              else |a| == mxSample ==> Least(a, iMin)
    {
      if nEqZero > nMaxEqZero {
        nMaxEqZero := nEqZero;
      }
      KeptSized(h, a, st);
      if !s.isPSample {
        var done := ShareReason(s, nEqZero, st);
        if done {
          return;
        }
      }
      AppendSample(s, nEqZero, st);
      KeptSized(h, a, st);
      NewMin();
    }

    /** The best sample for column i is worth a place among the samples? */
    method OfferBest(i: nat)
      requires Shape() && h.Ok() && Kept(h, a, i + 1) && CurrentOk(h, current) && i + 1 < nCol
      requires |aBest| == nCol && BestAt(h, aBest[i], i) && CountP(a) < mxSample
      modifies this`a, this`iMin, this`nMaxEqZero, this`aBest
      ensures Shape() && Kept(h, a, i) && CountP(a) == old(CountP(a)) && a != []
      ensures |aBest| == nCol && forall l :: 0 <= l < nCol && l != i ==> aBest[l] == old(aBest[l])
      ensures aBest[i] == old(aBest[i]).(anEq := old(aBest[i]).anEq[i := current.anEq[i]])
      ensures if old(|a|) < mxSample || Beats(aBest[i], old(a), old(iMin))
              then Inserts(old(a), old(iMin), mxSample, aBest[i], i, a) else a == old(a)
    {
      BestInsertable(h, a, aBest[i], current, i);
      var best := aBest[i].(anEq := aBest[i].anEq[i := current.anEq[i]]);
      aBest := aBest[i := best];
      KeptSized(h, a, i);
      var take := |a| < mxSample;
      if !take {
        take := SampleIsBetter(best, a[iMin]);
      }
      if take {
        SampleInsert(best, i, i);
        InsertsDue(old(a), old(iMin), mxSample, best, i, a, nPSample);
      }
    }

    /** Fill in the counts that are complete now that column iChng has changed. */
    method FillIn(iChng: nat)
      requires Shape() && Kept(h, a, iChng) && CurrentOk(h, current)
      modifies this`a, this`nMaxEqZero
      ensures Shape() && CountP(a) == old(CountP(a)) && |a| == old(|a|)
      ensures Completed(h, a, iChng)
    {
      KeptSized(h, a, iChng);
      if iChng < nMaxEqZero {
        var b := FillSamples(a, current, iChng);
        FillAll(h, a, b, current, iChng);
        a, nMaxEqZero := b, iChng;
      } else {
        FullAlready(h, a, current, iChng, nMaxEqZero);
      }
    }

    /** samplePushPrevious: column iChng is about to change. */
    method SamplePushPrevious(iChng: nat)
      requires Valid() && nRow > 0 && iChng < nCol && nRow <= nEst
      modifies this`a, this`iMin, this`nMaxEqZero, this`aBest
      ensures Shape() && |aBest| == nCol && forall l :: 0 <= l < iChng && l < nCol - 1 ==> BestAt(h, aBest[l], l)
      ensures Completed(h, a, iChng) && (iChng < nCol - 1 ==> a != [])
      ensures forall l :: 0 <= l < iChng ==> aBest[l] == old(aBest)[l]
    {
      FewPeriodic(nRow, nEst, mxSample);
      var i := nCol - 1;
      KeptWeaker(h, a, nCol, nCol - 1);
      while i > iChng
        invariant iChng <= i <= nCol - 1 && Shape() && Kept(h, a, i) && CountP(a) == Due(nRow, nPSample)
        invariant |aBest| == nCol && forall l :: 0 <= l < i && l < nCol - 1 ==> BestAt(h, aBest[l], l)
        invariant i < nCol - 1 ==> a != []
        invariant forall l :: 0 <= l < i ==> aBest[l] == old(aBest)[l]
      {
        i := i - 1;
        OfferBest(i);
      }
      FillIn(iChng);
    }

    /** The first row. */
    method FirstRow(rowid: int)
      requires Valid() && nRow == 0 && nEst > 0
      modifies this`current, this`nRow, this`h, this`iPrn, this`seen
      ensures SeenAll(h, seen) && seen == [current]
      ensures current.iHash == iPrn == (old(iPrn) * 1103515245 + 12345) % 0x1_0000_0000
      ensures Shape0() && a == [] && nRow == 1 && h == History([0], [rowid], nCol)
      ensures h.Ok() && CurrentOk(h, current) && |aBest| == nCol
    {
      iPrn := (iPrn * 1103515245 + 12345) % 0x1_0000_0000;
      current := current.(anEq := seq(nCol, i => 1), rowid := rowid, iHash := iPrn);
      nRow := 1;
      h, seen := History([0], [rowid], nCol), [current];
    }

    /** The counts of the next row. */
    method NextRow(iChng: nat, rowid: int)
      requires h.Ok() && h.nCol == nCol && nRow > 0 && CurrentOk(h, current) && iChng < nCol && !current.isPSample
      requires SeenAll(h, seen)
      modifies this`current, this`nRow, this`h, this`iPrn, this`seen
      ensures SeenAll(h, seen) && seen == old(seen) + [current]
      ensures current.iHash == iPrn == (old(iPrn) * 1103515245 + 12345) % 0x1_0000_0000
      ensures nRow == old(nRow) + 1 && h == Add(old(h), iChng, rowid) && h.Ok() && CurrentOk(h, current)
      ensures !current.isPSample
    {
      iPrn := (iPrn * 1103515245 + 12345) % 0x1_0000_0000;
      NextOk(h, current, iChng, rowid, iPrn);
      current := Next(current, iChng, rowid, iPrn);
      nRow := nRow + 1;
      SeenOn(h, iChng, rowid, seen, current);
      h, seen := Add(h, iChng, rowid), seen + [current];
    }

    /** A periodic sample, if it is time for one. */
    method Periodic()
      requires Shape0() && h.Ok() && nRow > 0 && nRow <= nEst && Kept(h, a, nCol) && CurrentOk(h, current)
      requires CountP(a) == Due(nRow - 1, nPSample) && forall x :: 0 <= x < |a| ==> Before(a[x], current)
      modifies this`a, this`iMin, this`nMaxEqZero, this`current
      ensures Shape() && Kept(h, a, nCol) && CurrentOk(h, current) && Alike(current, old(current))
    {
      var nLt := current.anLt[nCol - 1];
      DueStep(nLt, nPSample);
      FewPeriodic(nRow, nEst, mxSample);
      if Due(nLt, nPSample) != Due(nLt + 1, nPSample) {
        Relabelled(h, current, true, 0);
        current := current.(isPSample := true, iCol := 0);
        CurrentInsertable(h, a, current);
        ghost var a0, iMin0 := a, iMin;
        SampleInsert(current, nCol - 1, nCol);
        InsertsDue(a0, iMin0, mxSample, current, nCol - 1, a, nPSample);
        Relabelled(h, current, false, 0);
        current := current.(isPSample := false);
      }
    }

    /** The best sample for each column, now that there is one more row. */
    method UpdateBest(iChng: nat, ghost h0: History, ghost best0: seq<Sample>, ghost seen0: seq<Sample>)
      requires Shape() && h.Ok() && nRow > 0 && CurrentOk(h, current) && |aBest| == nCol && best0 == aBest
      requires iChng < nCol
      requires iChng > 0 ==> h0.Ok() && h0.nCol == nCol && exists rowid :: h == Add(h0, iChng, rowid)
      requires forall l :: 0 <= l < iChng && l < nCol - 1 ==>
        BestAt(h0, aBest[l], l) && PickedAt(h0, seen0, aBest[l], l)
      requires |seen| == nRow && seen == seen0 + [seen[nRow - 1]] && Alike(seen[nRow - 1], current)
      requires iChng == h.chng[nRow - 1]
      modifies this`aBest, this`current
      ensures BestAll(h, aBest) && CurrentOk(h, current) && !current.isPSample
      ensures PickedAll(h, seen, aBest) && Alike(current, old(current))
    {
      var i := 0;
      while i < nCol - 1
        invariant 0 <= i && CurrentOk(h, current) && !current.isPSample && |aBest| == nCol
        invariant Alike(current, old(current))
        invariant forall l :: 0 <= l < i && l < nCol - 1 ==> BestAt(h, aBest[l], l) && PickedAt(h, seen, aBest[l], l)
        invariant forall l :: i <= l < nCol ==> aBest[l] == best0[l]
        decreases nCol - 1 - i
      {
        Relabelled(h, current, false, i);
        current := current.(iCol := i);
        var take := i >= iChng;
        if !take {
          assert BestAt(h0, aBest[i], i);
          take := SampleIsBetterPost(current, aBest[i]);
          ghost var rowid :| h == Add(h0, iChng, rowid);
          PickedOn(h0, iChng, rowid, seen0, aBest[i], seen[nRow - 1], current, i);
        } else {
          PickedNew(h, seen, current, i);
        }
        if take {
          BestNew(h, current, i);
          aBest := aBest[i := current];
        } else {
          ghost var rowid :| h == Add(h0, iChng, rowid);
          BestOn(h0, iChng, rowid, aBest[i], current, i);
        }
        i := i + 1;
      }
    }

    /** statPush: one more row, which differs from the last one from column iChng on. */
    method StatPush(iChng: nat, rowid: int)
      requires Valid() && iChng < nCol && nRow < nEst && (nRow == 0 ==> iChng == 0)
      modifies this
      ensures Valid() && nRow == old(nRow) + 1
      ensures h == Add(old(h), iChng, rowid)
    {
      ghost var h0, seen0 := h, seen;
      if nRow == 0 {
        FirstRow(rowid);
      } else {
        SamplePushPrevious(iChng);
        AllOn(h, iChng, rowid, a);
        NextRow(iChng, rowid);
      }
      DueStep(0, nPSample);
      Periodic();
      UpdateBest(iChng, h0, aBest, seen0);
    }

    /** The end: the last row is followed by none, so all counts are complete. */
    method Finish()
      requires Valid() && nRow > 0 && nRow <= nEst
      modifies this`a, this`iMin, this`nMaxEqZero, this`aBest
      ensures |a| <= mxSample && Completed(h, a, 0) && h == old(h) && CountP(a) == Due(nRow, nPSample)
      ensures AllDue(a, nPSample)
      ensures nCol > 1 ==> a != []
    {
      SamplePushPrevious(0);
    }
  }

  lemma KeptSized(h: History, a: seq<Sample>, st: nat)
    requires Kept(h, a, st)
    ensures Sized(a, h.nCol) && forall x :: 0 <= x < |a| ==> a[x].iCol < h.nCol
  {
    forall x | 0 <= x < |a| ensures |a[x].anEq| == h.nCol && a[x].iCol < h.nCol {
      assert Staged(h, a[x], st) && Reason(a[x]);
    }
  }

  lemma StillInsertable(h: History, a: seq<Sample>, s: Sample, i: nat, nEqZero: nat, st: nat)
    requires Insertable(h, a, s, nEqZero, st) && i < |a|
    ensures Insertable(h, a[..i] + a[i + 1..], s, nEqZero, st)
  {
    var b := a[..i] + a[i + 1..];
    forall x | 0 <= x < |b| ensures b[x] in a {
      assert b[x] == a[if x < i then x else x + 1];
    }
    forall x | 0 <= x < |b| && s.isPSample ensures Before(b[x], s) {
      var y :| 0 <= y < |a| && a[y] == b[x];
    }
    forall x | 0 <= x < |b| && !s.isPSample ensures Exactly(h, b[x], s.iCol) {
      var y :| 0 <= y < |a| && a[y] == b[x];
    }
  }

  lemma KeptWeaker(h: History, a: seq<Sample>, st: nat, st': nat)
    requires Kept(h, a, st) && st' <= st
    ensures Kept(h, a, st')
  {
    forall x | 0 <= x < |a| ensures Staged(h, a[x], st') {
      Weaken(h, a[x], st, st');
    }
  }

  method FillSamples(a: seq<Sample>, cur: Sample, c: nat) returns (b: seq<Sample>)
    requires Sized(a, |cur.anEq|)
    ensures |b| == |a| && forall x :: 0 <= x < |a| ==> b[x] == Fill(a[x], cur, c)
  {
    b := [];
    for i := 0 to |a|
      invariant |b| == i && forall x :: 0 <= x < i ==> b[x] == Fill(a[x], cur, c)
    {
      b := b + [Fill(a[i], cur, c)];
    }
  }

  /** Filling in keeps the samples in order and leaves no open counts from column c on. */
  lemma FillAll(h: History, a: seq<Sample>, b: seq<Sample>, cur: Sample, c: nat)
    requires Kept(h, a, c) && CurrentOk(h, cur) && Sized(a, |cur.anEq|)
    requires |b| == |a| && forall x :: 0 <= x < |a| ==> b[x] == Fill(a[x], cur, c)
    ensures Completed(h, b, c) && ZerosBelow(b, c) && CountP(a) == CountP(b)
    ensures forall x :: 0 <= x < |a| ==> b[x].isPSample == a[x].isPSample
  {
    forall x | 0 <= x < |a| ensures Filled(h, b[x], c) && NoZeroAt(b[x], c) && Reason(b[x]) {
      assert Staged(h, a[x], c) && Reason(a[x]);
      FillRight(h, a[x], cur, c);
      forall j | c <= j < |b[x].anEq| ensures b[x].anEq[j] > 0 {
        assert FilledAt(h, b[x], c, j);
      }
    }
    forall x, y | 0 <= x < y < |b| ensures OrderAt(b, x, y) {
      assert OrderAt(a, x, y);
    }
    SameKinds(a, b);
  }

  lemma FullAlready(h: History, a: seq<Sample>, cur: Sample, c: nat, m: nat)
    requires Kept(h, a, c) && CurrentOk(h, cur) && ZerosBelow(a, m) && m <= c && Sized(a, |cur.anEq|)
    ensures Completed(h, a, c)
  {
    forall x | 0 <= x < |a| ensures Filled(h, a[x], c) && Reason(a[x]) {
      assert NoZeroAt(a[x], m) && Staged(h, a[x], c) && Reason(a[x]);
      FillRight(h, a[x], cur, c);
    }
  }

  /** Samples in order, all of whose counts from column c on are right for the rows so far. */
  ghost predicate Completed(h: History, a: seq<Sample>, c: nat) {
    && (forall x :: 0 <= x < |a| ==> Filled(h, a[x], c) && Reason(a[x]))
    && (forall x, y :: 0 <= x < y < |a| ==> OrderAt(a, x, y))
  }

  lemma {:induction false} SameKinds(a: seq<Sample>, b: seq<Sample>)
    requires |a| == |b| && forall x :: 0 <= x < |a| ==> a[x].isPSample == b[x].isPSample
    ensures CountP(a) == CountP(b)
  {
    if a == [] {
    } else {
      SameKinds(a[1..], b[1..]);
    }
  }

  /** The samples completed before a row are right when the row is there. */
  lemma AllOn(h: History, c: nat, rowid: int, a: seq<Sample>)
    requires h.Ok() && c < h.nCol && Completed(h, a, c)
    ensures Kept(Add(h, c, rowid), a, h.nCol)
    ensures forall x :: 0 <= x < |a| ==> a[x].anLt != [] && RowOf(a[x]) < |h.chng|
  {
    forall x | 0 <= x < |a|
      ensures Staged(Add(h, c, rowid), a[x], h.nCol) && a[x].anLt != [] && RowOf(a[x]) < |h.chng|
    {
      assert Filled(h, a[x], c);
      FilledOn(h, c, rowid, a[x]);
    }
  }

  /** The sample is a row, and its three counts per column are the numbers of rows equal to it,
      of rows less, and of different values less, in the columns up to that one. */
  ghost predicate TrueCounts(rows: seq<seq<int>>, chng: seq<nat>, s: Sample, j: nat)
    requires |rows| == |chng| && forall k :: 0 <= k < |rows| ==> j < |rows[k]|
  {
    && j < |s.anEq| && j < |s.anLt| && j < |s.anDLt| && RowOf(s) < |rows|
    && s.anEq[j] == |EqualRows(rows, RowOf(s), j)| && s.anLt[j] == |LessRows(rows, RowOf(s), j)|
    && s.anDLt[j] == |Prefixes(rows, Start(chng, RowOf(s), j), j)|
  }

  lemma CountsAreTrue(rows: seq<seq<int>>, h: History, s: Sample, j: nat)
    requires Rows(rows, h.chng, h.nCol) && Filled(h, s, 0) && j < h.nCol
    ensures TrueCounts(rows, h.chng, s, j)
  {
    assert FilledAt(h, s, 0, j) && LessAt(h, s, j);
    CountsMean(rows, h.chng, h.nCol, RowOf(s), j);
    ChangesMean(rows, h.chng, h.nCol, RowOf(s), j);
  }

  /** ANALYZE over a whole index. */
  method Analyze(ghost rows: seq<seq<int>>, chng: seq<nat>, rowids: seq<int>, nCol: nat, nEst: nat, mxSample: nat,
                 seed: nat)
    returns (a: seq<Sample>)
    requires Rows(rows, chng, nCol) && |rowids| == |chng| <= nEst && 0 < mxSample
    ensures |a| <= mxSample && CountP(a) == Due(|rows|, Period(nEst, mxSample)) && (nCol > 1 ==> a != [])
    ensures AllDue(a, Period(nEst, mxSample))
    ensures forall x :: 0 <= x < |a| ==> a[x].anLt != [] && RowOf(a[x]) < |rowids| && a[x].rowid == rowids[RowOf(a[x])]
    ensures forall x, j :: 0 <= x < |a| && 0 <= j < nCol ==> TrueCounts(rows, chng, a[x], j)
    ensures forall x, y :: 0 <= x < y < |a| ==> OrderAt(a, x, y)
  {
    var p := new Stat4Accum(nCol, nEst, mxSample, seed);
    for i := 0 to |chng|
      invariant p.Valid() && p.nRow == i && p.nEst == nEst && p.mxSample == mxSample && p.nCol == nCol
      invariant p.h == History(chng[..i], rowids[..i], nCol)
    {
      assert chng[..i + 1] == chng[..i] + [chng[i]] && rowids[..i + 1] == rowids[..i] + [rowids[i]];
      p.StatPush(chng[i], rowids[i]);
    }
    assert chng[..|chng|] == chng && rowids[..|chng|] == rowids;
    p.Finish();
    a := p.a;
    forall x, j | 0 <= x < |a| && 0 <= j < nCol ensures TrueCounts(rows, chng, a[x], j) {
      CountsAreTrue(rows, p.h, a[x], j);
    }
  }
}
