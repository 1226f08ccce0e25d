/** Packing of cells onto sibling pages: the two loops of balance_nonroot that
    decide how many siblings there are and where each one ends.

    `s[j]` is the size of the j-th cell; on a page it costs `2 + s[j]` bytes, the
    two being its slot in the cell-pointer array.  `d` is the number of divider
    cells between two siblings: 0 for the leaves of a table tree (leafData), 1 for
    every other kind of page.  `cnt[i]` is the index of the first cell to the right
    of page i, which is page i's divider when d == 1. */
module Packing {

  /** Bytes used by the cells before index `x`.  Index |s| + 1 is where the cells
      right of a divider at |s| would start: nothing is there. */
  ghost function Prefix(s: seq<nat>, x: nat): (p: nat) {
    if x == 0 then 0
    else Prefix(s, x - 1) + if x - 1 < |s| then 2 + s[x - 1] else 0
  }

  lemma {:induction false} PrefixMonotone(s: seq<nat>, x: nat, y: nat)
    requires x <= y
    ensures Prefix(s, x) <= Prefix(s, y)
    ensures x < y && x < |s| ==> Prefix(s, x) + 2 + s[x] <= Prefix(s, y)
    decreases y
  {
    if x == y {
    } else {
      PrefixMonotone(s, x, y - 1);
    }
  }

  /** The first cell of page i. */
  function Start(cnt: seq<int>, i: nat, d: nat): int
    requires i <= |cnt|
  {
    if i == 0 then 0 else cnt[i - 1] + d
  }

  /** The end of the page before page i. */
  ghost function Before(cnt: seq<int>, i: nat): int
    requires i <= |cnt|
  {
    Start(cnt, i, 0)
  }

  /** Bytes of cells on page i; negative while the page's end lies left of its start. */
  ghost function Load(s: seq<nat>, cnt: seq<int>, i: nat, d: nat): int
    requires i < |cnt|
    requires 0 <= cnt[i] && 0 <= Start(cnt, i, d)
  {
    Prefix(s, cnt[i]) - Prefix(s, Start(cnt, i, d))
  }

  ghost predicate InRange(s: seq<nat>, cnt: seq<int>) {
    forall j :: 0 <= j < |cnt| ==> 0 <= cnt[j] <= |s|
  }

  ghost predicate ExactAt(s: seq<nat>, cnt: seq<int>, sz: seq<int>, d: nat, j: nat)
    requires InRange(s, cnt) && j < |cnt| == |sz|
  {
    sz[j] == Load(s, cnt, j, d)
  }

  /** `sz` holds the exact load of every page. */
  ghost predicate Exact(s: seq<nat>, cnt: seq<int>, sz: seq<int>, d: nat)
    requires InRange(s, cnt)
  {
    && |sz| == |cnt|
    && forall j :: 0 <= j < |cnt| ==> ExactAt(s, cnt, sz, d, j)
  }

  /** Page j is settled: it starts no later than it ends, is not over-full, and, unless
      it is the last page, could not take the next cell. */
  ghost predicate Settled(s: seq<nat>, cnt: seq<int>, d: nat, usable: nat, j: nat)
    requires InRange(s, cnt) && j < |cnt|
  {
    && Start(cnt, j, d) <= cnt[j]
    && Load(s, cnt, j, d) <= usable
    && (j < |cnt| - 1 ==>
          && Before(cnt, j) < cnt[j] < |s|
          && Load(s, cnt, j, d) + 2 + s[cnt[j]] > usable)
  }

  ghost predicate PageOk(s: seq<nat>, cnt: seq<int>, d: nat, usable: nat, j: nat)
    requires InRange(s, cnt) && j < |cnt|
  {
    && Start(cnt, j, d) <= cnt[j]
    && Load(s, cnt, j, d) <= usable
    && (j < |cnt| - 1 ==> Before(cnt, j) < cnt[j] < |s|)
  }

  /** A division of all cells into |cnt| siblings, none of them over-full. */
  ghost predicate Partition(s: seq<nat>, cnt: seq<int>, d: nat, usable: nat) {
    && InRange(s, cnt)
    && 0 < |cnt|
    && cnt[|cnt| - 1] == |s|
    && forall j :: 0 <= j < |cnt| ==> PageOk(s, cnt, d, usable, j)
  }

  datatype Outcome = Corrupt | Packed(cnt: seq<int>, sz: seq<int>)

  /** The state of the first loop when it starts on page i. */
  ghost predicate LeftState(s: seq<nat>, cnt: seq<int>, sz: seq<int>, d: nat, usable: nat, i: nat) {
    && 0 < |cnt| && i <= |cnt|
    && InRange(s, cnt) && Exact(s, cnt, sz, d)
    && cnt[|cnt| - 1] == |s|
    && (forall j :: 0 <= j < i ==> Settled(s, cnt, d, usable, j))
  }

  /** The bytes page i + 1 loses at its left end when page i's end moves one cell to the
      right from `x`: the moved cell itself, or the cell that becomes the divider. */
  function Edge(s: seq<nat>, x: nat, d: nat): (e: int)
    requires d <= 1
    requires x < |s|
    ensures e == Prefix(s, x + 1 + d) - Prefix(s, x + d)
  {
    if d == 0 then 2 + s[x] else if x + 1 < |s| then 2 + s[x + 1] else 0
  }

  /** The sizes after the end of page i moved from x to x + 1. */
  ghost function Widened(s: seq<nat>, sz: seq<int>, d: nat, i: nat, x: nat): seq<int>
    requires d <= 1 && i + 1 < |sz| && x < |s|
  {
    sz[i := sz[i] + (2 + s[x])][i + 1 := sz[i + 1] - Edge(s, x, d)]
  }

  /** ... and after it moved back from x + 1 to x. */
  ghost function Narrowed(s: seq<nat>, sz: seq<int>, d: nat, i: nat, x: nat): seq<int>
    requires d <= 1 && i + 1 < |sz| && x < |s|
  {
    sz[i := sz[i] - (2 + s[x])][i + 1 := sz[i + 1] + Edge(s, x, d)]
  }

  lemma WidenExact(s: seq<nat>, cnt: seq<int>, sz: seq<int>, d: nat, i: nat)
    requires d <= 1
    requires InRange(s, cnt) && Exact(s, cnt, sz, d)
    requires i + 1 < |cnt| && cnt[i] < |s|
    ensures var cnt' := cnt[i := cnt[i] + 1]; var sz' := Widened(s, sz, d, i, cnt[i]);
      InRange(s, cnt') && Exact(s, cnt', sz', d)
  {
    var cnt', sz' := cnt[i := cnt[i] + 1], Widened(s, sz, d, i, cnt[i]);
    forall j | 0 <= j < |cnt'|
      ensures ExactAt(s, cnt', sz', d, j)
    {
      assert ExactAt(s, cnt, sz, d, j);
    }
  }

  lemma NarrowExact(s: seq<nat>, cnt: seq<int>, sz: seq<int>, d: nat, i: nat)
    requires d <= 1
    requires InRange(s, cnt) && Exact(s, cnt, sz, d)
    requires i + 1 < |cnt| && 0 < cnt[i]
    ensures var cnt' := cnt[i := cnt[i] - 1]; var sz' := Narrowed(s, sz, d, i, cnt[i] - 1);
      InRange(s, cnt') && Exact(s, cnt', sz', d)
  {
    var cnt', sz' := cnt[i := cnt[i] - 1], Narrowed(s, sz, d, i, cnt[i] - 1);
    forall j | 0 <= j < |cnt'|
      ensures ExactAt(s, cnt', sz', d, j)
    {
      assert ExactAt(s, cnt, sz, d, j);
    }
  }

  /** A page that holds too much has a cell to give away. */
  lemma Overfull(s: seq<nat>, cnt: seq<int>, sz: seq<int>, d: nat, usable: nat, i: nat)
    requires LeftState(s, cnt, sz, d, usable, i) && i < |cnt|
    requires sz[i] > usable
    ensures Start(cnt, i, d) < cnt[i]
  {
    assert ExactAt(s, cnt, sz, d, i);
    if cnt[i] <= Start(cnt, i, d) {
      PrefixMonotone(s, cnt[i], Start(cnt, i, d));
    }
  }

  /** A page still open to the next cell has not fallen behind its own start. */
  lemma NotBehind(s: seq<nat>, cnt: seq<int>, sz: seq<int>, d: nat, usable: nat, i: nat)
    requires d <= 1
    requires LeftState(s, cnt, sz, d, usable, i) && i < |cnt|
    requires cnt[i] < |s| ==> sz[i] + 2 + s[cnt[i]] > usable
    ensures Start(cnt, i, d) <= cnt[i]
    ensures Fits(s, usable) && cnt[i] < |s| ==> Start(cnt, i, d) < cnt[i]
  {
    assert ExactAt(s, cnt, sz, d, i);
    if i > 0 { assert Settled(s, cnt, d, usable, i - 1); }
    if cnt[i] < Start(cnt, i, d) && cnt[i] < |s| {
      PrefixMonotone(s, cnt[i], Start(cnt, i, d));
    }
  }

  /** Every cell fits on an empty page. */
  predicate Fits(s: seq<nat>, usable: nat) {
    forall j :: 0 <= j < |s| ==> 2 + s[j] <= usable
  }

  lemma KeepsSettled(s: seq<nat>, cnt: seq<int>, cnt': seq<int>, d: nat, usable: nat, i: nat, x: nat)
    requires InRange(s, cnt) && i + 1 < |cnt| && x <= |s|
    requires forall j :: 0 <= j < i ==> Settled(s, cnt, d, usable, j)
    requires cnt' == cnt[i := x]
    ensures InRange(s, cnt')
    ensures forall j :: 0 <= j < i ==> Settled(s, cnt', d, usable, j)
  {
    forall j | 0 <= j < i
      ensures Settled(s, cnt', d, usable, j)
    {
      assert Settled(s, cnt, d, usable, j);
    }
  }

  lemma WidenLeft(s: seq<nat>, cnt: seq<int>, sz: seq<int>, d: nat, usable: nat, i: nat)
    requires d <= 1
    requires LeftState(s, cnt, sz, d, usable, i)
    requires i < |cnt| && cnt[i] < |s|
    ensures i + 1 < |cnt|
    ensures LeftState(s, cnt[i := cnt[i] + 1], Widened(s, sz, d, i, cnt[i]), d, usable, i)
  {
    WidenExact(s, cnt, sz, d, i);
    KeepsSettled(s, cnt, cnt[i := cnt[i] + 1], d, usable, i, cnt[i] + 1);
  }

  lemma NarrowLeft(s: seq<nat>, cnt: seq<int>, sz: seq<int>, d: nat, usable: nat, i: nat)
    requires d <= 1
    requires LeftState(s, cnt, sz, d, usable, i)
    requires i + 1 < |cnt| && 0 < cnt[i]
    ensures LeftState(s, cnt[i := cnt[i] - 1], Narrowed(s, sz, d, i, cnt[i] - 1), d, usable, i)
  {
    NarrowExact(s, cnt, sz, d, i);
    KeepsSettled(s, cnt, cnt[i := cnt[i] - 1], d, usable, i, cnt[i] - 1);
  }

  lemma OpenPage(s: seq<nat>, cnt: seq<int>, sz: seq<int>, d: nat, usable: nat, i: nat)
    requires d <= 1
    requires LeftState(s, cnt, sz, d, usable, i)
    requires i + 1 == |cnt|
    ensures LeftState(s, cnt + [|s|], sz + [0], d, usable, i)
  {
    var cnt', sz' := cnt + [|s|], sz + [0];
    forall j | 0 <= j < |cnt'|
      ensures ExactAt(s, cnt', sz', d, j)
    {
      assert j < |cnt| ==> ExactAt(s, cnt, sz, d, j);
    }
    forall j | 0 <= j < i
      ensures Settled(s, cnt', d, usable, j)
    {
      assert Settled(s, cnt, d, usable, j);
    }
  }

  /** Push cells off the right end of page i until it is no longer over-full. */
  method Shrink(s: seq<nat>, usable: nat, leafData: bool, cntNew: array<int>, szNew: array<int>, i: nat, k0: nat)
    returns (ok: bool, k: nat)
    requires cntNew != szNew && i < k0 <= cntNew.Length == szNew.Length
    requires LeftState(s, cntNew[..k0], szNew[..k0], if leafData then 0 else 1, usable, i)
    modifies cntNew, szNew
    ensures k0 <= k <= cntNew.Length
    ensures LeftState(s, cntNew[..k], szNew[..k], if leafData then 0 else 1, usable, i)
    ensures if ok then szNew[i] <= usable else i + 1 == k == cntNew.Length && szNew[i] > usable
  {
    ghost var d := if leafData then 0 else 1;
    k := k0;
    ghost var cnt, sz := cntNew[..k], szNew[..k];
    while szNew[i] > usable
      invariant i < k <= cntNew.Length && k0 <= k
      invariant cntNew[..k] == cnt && szNew[..k] == sz
      invariant LeftState(s, cnt, sz, d, usable, i)
      decreases cntNew[i]
    {
      if i + 1 >= k {
        if i + 2 > cntNew.Length {
          return false, k;
        }
        k := i + 2;
        szNew[k - 1] := 0;
        cntNew[k - 1] := |s|;
        OpenPage(s, cnt, sz, d, usable, i);
        cnt, sz := cnt + [|s|], sz + [0];
        assert cntNew[..k] == cnt && szNew[..k] == sz;
      }
      Overfull(s, cnt, sz, d, usable, i);
      NarrowLeft(s, cnt, sz, d, usable, i);
      var c := 2 + s[cntNew[i] - 1];
      szNew[i] := szNew[i] - c;
      if !leafData {
        if cntNew[i] < |s| {
          c := 2 + s[cntNew[i]];
        } else {
          c := 0;
        }
      }
      szNew[i + 1] := szNew[i + 1] + c;
      cntNew[i] := cntNew[i] - 1;
      cnt, sz := cnt[i := cnt[i] - 1], Narrowed(s, sz, d, i, cnt[i] - 1);
      assert cntNew[..k] == cnt && szNew[..k] == sz;
    }
    return true, k;
  }

  /** Pull cells over from the right as long as they fit on page i. */
  method Grow(s: seq<nat>, usable: nat, leafData: bool, cntNew: array<int>, szNew: array<int>, i: nat, k: nat)
    requires cntNew != szNew && i < k <= cntNew.Length == szNew.Length
    requires LeftState(s, cntNew[..k], szNew[..k], if leafData then 0 else 1, usable, i)
    requires szNew[i] <= usable
    modifies cntNew, szNew
    ensures LeftState(s, cntNew[..k], szNew[..k], if leafData then 0 else 1, usable, i)
    ensures szNew[i] <= usable
    ensures cntNew[i] < |s| ==> szNew[i] + 2 + s[cntNew[i]] > usable
  {
    ghost var d := if leafData then 0 else 1;
    ghost var cnt, sz := cntNew[..k], szNew[..k];
    while cntNew[i] < |s|
      invariant cntNew[..k] == cnt && szNew[..k] == sz
      invariant LeftState(s, cnt, sz, d, usable, i)
      invariant szNew[i] <= usable
      decreases |s| - cntNew[i]
    {
      var c := 2 + s[cntNew[i]];
      if szNew[i] + c > usable {
        break;
      }
      WidenLeft(s, cnt, sz, d, usable, i);
      szNew[i] := szNew[i] + c;
      cntNew[i] := cntNew[i] + 1;
      if !leafData {
        if cntNew[i] < |s| {
          c := 2 + s[cntNew[i]];
        } else {
          c := 0;
        }
      }
      szNew[i + 1] := szNew[i + 1] - c;
      cnt, sz := cnt[i := cnt[i] + 1], Widened(s, sz, d, i, cnt[i]);
      assert cntNew[..k] == cnt && szNew[..k] == sz;
    }
  }

  /** Greedy packing ends every page at or after the end any partition gives it. */
  lemma {:induction false} GreedyDominates(s: seq<nat>, cnt: seq<int>, q: seq<int>, d: nat, usable: nat, j: nat)
    requires InRange(s, cnt) && Partition(s, q, d, usable)
    requires j < |cnt| - 1 && j < |q|
    requires forall h :: 0 <= h <= j ==> Settled(s, cnt, d, usable, h)
    ensures q[j] <= cnt[j]
    decreases j
  {
    if j > 0 {
      GreedyDominates(s, cnt, q, d, usable, j - 1);
    }
    assert Settled(s, cnt, d, usable, j) && PageOk(s, q, d, usable, j);
    PrefixMonotone(s, Start(q, j, d), Start(cnt, j, d));
    if cnt[j] < q[j] {
      PrefixMonotone(s, cnt[j], q[j]);
    }
  }

  /** If greedy packing leaves too much for the last page then so does every division
      of the cells onto that many pages or fewer. */
  lemma RoomForLast(s: seq<nat>, cnt: seq<int>, sz: seq<int>, q: seq<int>, d: nat, usable: nat)
    requires 0 < |cnt| && LeftState(s, cnt, sz, d, usable, |cnt| - 1)
    requires |q| <= |cnt| && Partition(s, q, d, usable)
    ensures sz[|cnt| - 1] <= usable
  {
    var m := |q| - 1;
    if m < |cnt| - 1 {
      assert Settled(s, cnt, d, usable, m);
      GreedyDominates(s, cnt, q, d, usable, m);
    } else {
      assert PageOk(s, q, d, usable, m) && ExactAt(s, cnt, sz, d, m);
      if m > 0 {
        GreedyDominates(s, cnt, q, d, usable, m - 1);
      }
      PrefixMonotone(s, Start(q, m, d), Start(cnt, m, d));
    }
  }

  lemma NoRoom(s: seq<nat>, cnt: seq<int>, sz: seq<int>, d: nat, usable: nat)
    requires 0 < |cnt| && LeftState(s, cnt, sz, d, usable, |cnt| - 1)
    ensures forall q :: |q| <= |cnt| && Partition(s, q, d, usable) ==> sz[|cnt| - 1] <= usable
  {
    forall q | |q| <= |cnt| && Partition(s, q, d, usable)
      ensures sz[|cnt| - 1] <= usable
    {
      RoomForLast(s, cnt, sz, q, d, usable);
    }
  }

  lemma SettledIsPartition(s: seq<nat>, cnt: seq<int>, sz: seq<int>, d: nat, usable: nat)
    requires LeftState(s, cnt, sz, d, usable, |cnt|)
    ensures Partition(s, cnt, d, usable)
  {
    forall j | 0 <= j < |cnt|
      ensures PageOk(s, cnt, d, usable, j)
    {
      assert Settled(s, cnt, d, usable, j);
    }
  }

  /** Dropping the pages after the one that already reaches the last cell. */
  lemma LastPage(s: seq<nat>, cnt: seq<int>, sz: seq<int>, d: nat, usable: nat, i: nat)
    requires LeftState(s, cnt, sz, d, usable, i)
    requires i < |cnt| && cnt[i] == |s|
    requires Start(cnt, i, d) <= cnt[i] && sz[i] <= usable
    ensures LeftState(s, cnt[..i + 1], sz[..i + 1], d, usable, i + 1)
  {
    var cnt', sz' := cnt[..i + 1], sz[..i + 1];
    forall j | 0 <= j <= i
      ensures ExactAt(s, cnt', sz', d, j) && Settled(s, cnt', d, usable, j)
    {
      assert ExactAt(s, cnt, sz, d, j);
      assert j < i ==> Settled(s, cnt, d, usable, j);
    }
  }

  lemma NextPage(s: seq<nat>, cnt: seq<int>, sz: seq<int>, d: nat, usable: nat, i: nat)
    requires LeftState(s, cnt, sz, d, usable, i)
    requires i < |cnt| - 1
    requires Before(cnt, i) < cnt[i] < |s|
    requires Start(cnt, i, d) <= cnt[i] && sz[i] <= usable
    requires sz[i] + 2 + s[cnt[i]] > usable
    ensures LeftState(s, cnt, sz, d, usable, i + 1)
  {
    assert ExactAt(s, cnt, sz, d, i);
    assert Settled(s, cnt, d, usable, i);
  }

  /** First loop of the packing: fill the siblings from the left, each as full as it can
      be, opening new siblings at the right end where needed.  It gives up exactly when
      no division of the cells onto that many pages exists. */
  method PackLeft(s: seq<nat>, nOld: nat, usable: nat, leafData: bool, cntNew: array<int>, szNew: array<int>)
    returns (ok: bool, k: nat)
    requires cntNew != szNew && 0 < nOld <= cntNew.Length == szNew.Length
    requires LeftState(s, cntNew[..nOld], szNew[..nOld], if leafData then 0 else 1, usable, 0)
    modifies cntNew, szNew
    ensures k <= cntNew.Length
    ensures ok ==> LeftState(s, cntNew[..k], szNew[..k], if leafData then 0 else 1, usable, k)
    ensures !ok && Fits(s, usable) ==>
      forall q :: |q| <= cntNew.Length ==> !Partition(s, q, if leafData then 0 else 1, usable)
  {
    ghost var d := if leafData then 0 else 1;
    k := nOld;
    var i := 0;
    while i < k
      invariant i <= k <= cntNew.Length
      invariant LeftState(s, cntNew[..k], szNew[..k], d, usable, i)
      decreases cntNew.Length - i
    {
      ok, k := Shrink(s, usable, leafData, cntNew, szNew, i, k);
      if !ok {
        NoRoom(s, cntNew[..k], szNew[..k], d, usable);
        return false, k;
      }
      Grow(s, usable, leafData, cntNew, szNew, i, k);
      NotBehind(s, cntNew[..k], szNew[..k], d, usable, i);
      if cntNew[i] >= |s| {
        LastPage(s, cntNew[..k], szNew[..k], d, usable, i);
        assert cntNew[..k][..i + 1] == cntNew[..i + 1] && szNew[..k][..i + 1] == szNew[..i + 1];
        k := i + 1;
      } else if cntNew[i] <= if i > 0 then cntNew[i - 1] else 0 {
        return false, k;
      } else {
        NextPage(s, cntNew[..k], szNew[..k], d, usable, i);
      }
      i := i + 1;
    }
    return true, k;
  }

  /** Page j holds at least one cell. */
  ghost predicate NonEmpty(cnt: seq<int>, d: nat, j: nat)
    requires j < |cnt|
  {
    Start(cnt, j, d) < cnt[j]
  }

  /** The state of the second loop when it starts on page i: `was` is the packing the first
      loop left, still in place left of page i, and the pages right of page i are final. */
  ghost predicate RightState(s: seq<nat>, was: seq<int>, cnt: seq<int>, sz: seq<int>, d: nat, usable: nat, i: nat) {
    && i < |cnt| == |was|
    && Partition(s, cnt, d, usable) && Exact(s, cnt, sz, d)
    && cnt[..i] == was[..i]
    && (forall j :: 0 <= j < i ==> NonEmpty(cnt, d, j))
    && (forall j :: i < j < |cnt| ==> NonEmpty(cnt, d, j))
    && (NonEmpty(cnt, d, i) <==> !Chain(was, d, i))
  }

  /** The last page is empty and every page from i on up to it has a single cell, so that
      the empty page passes its lack on to page i. */
  ghost predicate Chain(cnt: seq<int>, d: nat, i: nat)
    requires i < |cnt|
    decreases |cnt| - i
  {
    if i == |cnt| - 1 then Start(cnt, i, d) == cnt[i]
    else cnt[i] == Start(cnt, i, d) + 1 && Chain(cnt, d, i + 1)
  }

  /** While page i takes cells from page i - 1: `c0`, `z0` are the packing before, `c`, `z`
      the packing so far. */
  ghost predicate Sharing(s: seq<nat>, c0: seq<int>, z0: seq<int>, c: seq<int>, z: seq<int>, d: nat, usable: nat,
                          i: nat) {
    && 0 < i < |c0|
    && |z0| == |c0| == |z| == |c|
    && InRange(s, c) && Exact(s, c, z, d)
    && Start(c, i - 1, d) <= c[i - 1] <= c0[i - 1]
    && c == c0[i - 1 := c[i - 1]]
    && z == z0[i - 1 := z[i - 1]][i := z[i]]
    && 0 <= z[i] <= usable && z[i - 1] <= usable
    && (if c[i - 1] < c0[i - 1] then 0 < z[i] else z == z0)
    && (c[i - 1] == Start(c, i - 1, d) <==> z0[i] == 0 && c0[i - 1] == Start(c0, i - 1, d) + 1 && c[i - 1] < c0[i - 1])
  }

  lemma LoadSign(s: seq<nat>, cnt: seq<int>, d: nat, j: nat)
    requires d <= 1 && j < |cnt| && InRange(s, cnt)
    requires Start(cnt, j, d) <= |s|
    ensures Load(s, cnt, j, d) > 0 <==> Start(cnt, j, d) < cnt[j]
    ensures Load(s, cnt, j, d) == 0 <==> Start(cnt, j, d) == cnt[j]
  {
    if Start(cnt, j, d) <= cnt[j] {
      PrefixMonotone(s, Start(cnt, j, d), cnt[j]);
    } else {
      PrefixMonotone(s, cnt[j], Start(cnt, j, d));
    }
  }

  lemma SharingStarts(s: seq<nat>, was: seq<int>, cnt: seq<int>, sz: seq<int>, d: nat, usable: nat, i: nat)
    requires d <= 1 && 0 < i
    requires RightState(s, was, cnt, sz, d, usable, i)
    ensures Sharing(s, cnt, sz, cnt, sz, d, usable, i)
    ensures sz[i] == 0 <==> Chain(was, d, i)
  {
    assert PageOk(s, cnt, d, usable, i) && PageOk(s, cnt, d, usable, i - 1);
    assert ExactAt(s, cnt, sz, d, i) && ExactAt(s, cnt, sz, d, i - 1);
    assert NonEmpty(cnt, d, i - 1);
    LoadSign(s, cnt, d, i);
  }

  /** One cell moves from page i - 1 to page i, under the guard of the source. */
  lemma SharingStep(s: seq<nat>, c0: seq<int>, z0: seq<int>, c: seq<int>, z: seq<int>, d: nat, usable: nat, i: nat)
    requires d <= 1 && Fits(s, usable)
    requires Sharing(s, c0, z0, c, z, d, usable, i)
    requires c0[i - 1] < |s| && Start(c0, i - 1, d) < c0[i - 1]
    requires var r := c[i - 1] - 1;
      || z[i] == 0
      || (0 <= r && z[i] + s[r + d] + 2 <= z[i - 1] - s[r])
    ensures 0 < c[i - 1]
    ensures var r := c[i - 1] - 1;
      Sharing(s, c0, z0, c[i - 1 := r], Narrowed(s, z, d, i - 1, r), d, usable, i)
  {
    assert ExactAt(s, c, z, d, i - 1);
    assert Start(c, i - 1, d) == Start(c0, i - 1, d);
    LoadSign(s, c, d, i - 1);
    assert z[i] == 0 ==> c[i - 1] == c0[i - 1];
    var r := c[i - 1] - 1;
    var c', z' := c[i - 1 := r], Narrowed(s, z, d, i - 1, r);
    NarrowExact(s, c, z, d, i - 1);
    assert ExactAt(s, c', z', d, i - 1);
    LoadSign(s, c', d, i - 1);
  }

  lemma SharingEnds(s: seq<nat>, was: seq<int>, c0: seq<int>, z0: seq<int>, c: seq<int>, z: seq<int>, d: nat,
                    usable: nat, i: nat)
    requires d <= 1 && 0 < i
    requires RightState(s, was, c0, z0, d, usable, i)
    requires Sharing(s, c0, z0, c, z, d, usable, i)
    requires 0 < z[i]
    requires Before(c, i - 1) < c[i - 1]
    ensures RightState(s, was, c, z, d, usable, i - 1)
  {
    SharingStarts(s, was, c0, z0, d, usable, i);
    assert ExactAt(s, c, z, d, i) && ExactAt(s, c, z, d, i - 1);
    assert PageOk(s, c0, d, usable, i) && PageOk(s, c0, d, usable, i - 1);
    assert Start(c, i - 1, d) == Start(c0, i - 1, d);
    LoadSign(s, c, d, i);
    LoadSign(s, c, d, i - 1);
    assert c[..i - 1] == c0[..i][..i - 1] == was[..i - 1];
    forall j | 0 <= j < |c|
      ensures PageOk(s, c, d, usable, j)
      ensures j != i - 1 ==> NonEmpty(c, d, j)
    {
      assert PageOk(s, c0, d, usable, j);
      assert j != i ==> NonEmpty(c0, d, j);
    }
    assert c0[i - 1] == c0[..i][i - 1] == was[..i][i - 1] == was[i - 1];
    assert Start(was, i - 1, d) == Start(c0, i - 1, d);
  }

  /** The last cell before boundary q may go from page i - 1 to page i: page i is empty, or it is
      then not heavier than page i - 1, but for two bytes if it is the last page; nothing but an
      empty page is filled when loading in bulk. */
  ghost predicate MayMove(s: seq<nat>, c: seq<int>, d: nat, bulk: bool, i: nat, q: nat)
    requires 0 < i < |c| && d <= 1 && InRange(s, c) && 0 < q <= |s| && q - 1 + d < |s|
  {
    var at := c[i - 1 := q];
    var right, left := Load(s, at, i, d), Load(s, at, i - 1, d);
    right == 0 || (!bulk && right + s[q - 1 + d] + 2 <= left - s[q - 1] - if i == |c| - 1 then 0 else 2)
  }

  /** The boundary between pages i - 1 and i has gone left from c0 to c, as far as it may. */
  ghost predicate Evened(s: seq<nat>, c0: seq<int>, c: seq<int>, d: nat, bulk: bool, i: nat)
    requires 0 < i < |c0| == |c| && d <= 1 && InRange(s, c0) && InRange(s, c) && c0[i - 1] < |s|
  {
    && c[i - 1] <= c0[i - 1] && MayAll(s, c0, d, bulk, i, c[i - 1])
    && (c[i - 1] > 0 ==> !MayMove(s, c0, d, bulk, i, c[i - 1]))
  }

  ghost predicate MayAll(s: seq<nat>, c0: seq<int>, d: nat, bulk: bool, i: nat, lo: nat)
    requires 0 < i < |c0| && d <= 1 && InRange(s, c0) && c0[i - 1] < |s|
  {
    forall q :: lo < q <= c0[i - 1] ==> MayMove(s, c0, d, bulk, i, q)
  }

  /** The guard of the loop says whether the next cell may move. */
  lemma GuardIs(s: seq<nat>, c0: seq<int>, z0: seq<int>, c: seq<int>, z: seq<int>, d: nat, usable: nat, bulk: bool,
                i: nat)
    requires d <= 1 && Sharing(s, c0, z0, c, z, d, usable, i) && InRange(s, c0) && 0 < c[i - 1] && c0[i - 1] < |s|
    ensures var r := c[i - 1] - 1;
      MayMove(s, c0, d, bulk, i, r + 1) <==>
        !(z[i] != 0 && (bulk || z[i] + s[r + d] + 2 > z[i - 1] - (s[r] + if i == |c0| - 1 then 0 else 2)))
  {
    assert c0[i - 1 := c[i - 1]] == c && ExactAt(s, c, z, d, i) && ExactAt(s, c, z, d, i - 1);
  }

  /** What that means for the two pages: without bulk loading page i - 1 does not exceed page i by
      as much as the two cells at the boundary; and page i does not exceed page i - 1 through a move
      that was not forced, but for two bytes if it is the last page. */
  lemma EvenedMeans(s: seq<nat>, c0: seq<int>, z0: seq<int>, c: seq<int>, z: seq<int>, d: nat, usable: nat, bulk: bool,
                    i: nat)
    requires d <= 1 && Sharing(s, c0, z0, c, z, d, usable, i) && InRange(s, c0) && c0[i - 1] < |s|
    requires Exact(s, c0, z0, d) && 0 <= z0[i]
    requires Evened(s, c0, c, d, bulk, i)
    ensures !bulk && c[i - 1] > 0 ==> z[i - 1] - z[i] < s[c[i - 1] - 1] + s[c[i - 1] - 1 + d] + 4
    ensures var forced := z0[i] == 0 && c[i - 1] == c0[i - 1] - 1;
      c[i - 1] < c0[i - 1] && !forced ==> !bulk && z[i] <= z[i - 1] + if i == |c| - 1 then 2 else 0
  {
    var q := c[i - 1];
    assert c0[i - 1 := q] == c;
    assert ExactAt(s, c, z, d, i) && ExactAt(s, c, z, d, i - 1);
    if q < c0[i - 1] {
      var c' := c0[i - 1 := q + 1];
      assert MayMove(s, c0, d, bulk, i, q + 1);
      if Load(s, c', i, d) == 0 {
        NothingRight(s, c0, z0, d, i, q + 1);
      }
    }
  }

  /** The right page is empty only before the first cell goes there. */
  lemma NothingRight(s: seq<nat>, c0: seq<int>, z0: seq<int>, d: nat, i: nat, q: nat)
    requires d <= 1 && 0 < i < |c0| && InRange(s, c0) && Exact(s, c0, z0, d) && 0 <= z0[i]
    requires 0 < q <= c0[i - 1] < |s| && Load(s, c0[i - 1 := q], i, d) == 0
    ensures z0[i] == 0 && q == c0[i - 1]
  {
    assert ExactAt(s, c0, z0, d, i);
    PrefixMonotone(s, q + d, c0[i - 1] + d);
  }

  /** The loop that moves cells: the sizes are kept in variables. */
  method MoveOver(s: seq<nat>, usable: nat, leafData: bool, bulk: bool, cntNew: array<int>, i: nat, k: nat,
                  szRight0: int, szLeft0: int, ghost c0: seq<int>, ghost z0: seq<int>)
    returns (szRight: int, szLeft: int, ghost z: seq<int>)
    requires 0 < i < k <= cntNew.Length && Fits(s, usable) && cntNew[..k] == c0
    requires Sharing(s, c0, z0, c0, z0, if leafData then 0 else 1, usable, i)
    requires szRight0 == z0[i] && szLeft0 == z0[i - 1]
    requires c0[i - 1] < |s| && Start(c0, i - 1, if leafData then 0 else 1) < c0[i - 1]
    modifies cntNew
    ensures forall j :: k <= j < cntNew.Length ==> cntNew[j] == old(cntNew[j])
    ensures Sharing(s, c0, z0, cntNew[..k], z, if leafData then 0 else 1, usable, i)
    ensures szRight == z[i] > 0 && szLeft == z[i - 1]
    ensures Evened(s, c0, cntNew[..k], if leafData then 0 else 1, bulk, i)
  {
    ghost var d := if leafData then 0 else 1;
    szRight, szLeft := szRight0, szLeft0;
    var r := cntNew[i - 1] - 1;
    var x := r + 1 - if leafData then 1 else 0;
    ghost var c := c0;
    z := z0;
    var more := true;
    while more
      invariant r == cntNew[i - 1] - 1 && x == r + d
      invariant r >= -1 && (more <==> r >= 0)
      invariant cntNew[..k] == c && forall j :: k <= j < cntNew.Length ==> cntNew[j] == old(cntNew[j])
      invariant Sharing(s, c0, z0, c, z, d, usable, i)
      invariant szRight == z[i] && szLeft == z[i - 1]
      invariant !more ==> szRight > 0
      invariant MayAll(s, c0, d, bulk, i, r + 1)
      decreases r
    {
      GuardIs(s, c0, z0, c, z, d, usable, bulk, i);
      if szRight != 0 && (bulk || szRight + s[x] + 2 > szLeft - (s[r] + if i == k - 1 then 0 else 2)) {
        break;
      }
      SharingStep(s, c0, z0, c, z, d, usable, i);
      szRight := szRight + s[x] + 2;
      szLeft := szLeft - (s[r] + 2);
      cntNew[i - 1] := r;
      c, z := c[i - 1 := r], Narrowed(s, z, d, i - 1, r);
      r := r - 1;
      x := x - 1;
      more := r >= 0;
    }
  }

  /** Page i takes cells from page i - 1 while that leaves the two more even, and takes
      one in any case when it is empty. */
  method ShareWithLeft(s: seq<nat>, usable: nat, leafData: bool, bulk: bool, cntNew: array<int>, szNew: array<int>,
                       i: nat, k: nat, ghost was: seq<int>)
    requires cntNew != szNew && 0 < i < k <= cntNew.Length == szNew.Length
    requires Fits(s, usable)
    requires RightState(s, was, cntNew[..k], szNew[..k], if leafData then 0 else 1, usable, i)
    modifies cntNew, szNew
    ensures szNew[i] > 0
    ensures Sharing(s, old(cntNew[..k]), old(szNew[..k]), cntNew[..k], szNew[..k], if leafData then 0 else 1, usable, i)
    ensures old(0 <= cntNew[i - 1] < |s|)
    ensures Evened(s, old(cntNew[..k]), cntNew[..k], if leafData then 0 else 1, bulk, i)
    ensures var r := cntNew[i - 1] - 1;
      !bulk && r >= 0 ==>
        r + 1 < |s| && szNew[i - 1] - szNew[i] < s[r] + s[r + if leafData then 0 else 1] + 4
    ensures var forced := old(szNew[i]) == 0 && cntNew[i - 1] == old(cntNew[i - 1]) - 1;
      cntNew[i - 1] < old(cntNew[i - 1]) && !forced ==> !bulk && szNew[i] <= szNew[i - 1] + 2
  {
    ghost var d := if leafData then 0 else 1;
    ghost var c0, z0 := cntNew[..k], szNew[..k];
    SharingStarts(s, was, c0, z0, d, usable, i);
    assert PageOk(s, c0, d, usable, i - 1) && NonEmpty(c0, d, i - 1);
    var szRight, szLeft;
    ghost var z;
    szRight, szLeft, z := MoveOver(s, usable, leafData, bulk, cntNew, i, k, szNew[i], szNew[i - 1], c0, z0);
    szNew[i] := szRight;
    szNew[i - 1] := szLeft;
    assert szNew[..k] == z;
    EvenedMeans(s, c0, z0, cntNew[..k], z, d, usable, bulk, i);
  }

  /** Page j has one cell; or it does not exceed the page before it by more than the cell at the
      boundary, and after a bulk load the page before it has no room for that cell. */
  ghost predicate PairOk(s: seq<nat>, cnt: seq<int>, sz: seq<int>, d: nat, usable: nat, bulk: bool, j: nat)
    requires 0 < j < |cnt| == |sz|
  {
    && 0 <= cnt[j - 1] < |s|
    && (cnt[j] != Start(cnt, j, d) + 1 ==>
          && sz[j] - sz[j - 1] <= 2 + s[cnt[j - 1]]
          && (bulk ==> sz[j - 1] + 2 + s[cnt[j - 1]] > usable))
  }

  /** All pages from j on are right with the pages before them. */
  ghost predicate PairsFrom(s: seq<nat>, cnt: seq<int>, sz: seq<int>, d: nat, usable: nat, bulk: bool, j: nat)
    requires |cnt| == |sz|
  {
    forall h :: 0 < h < |cnt| && j <= h ==> PairOk(s, cnt, sz, d, usable, bulk, h)
  }

  /** The first two pages differ by less than the cells at the boundary, unless loading in bulk. */
  ghost predicate FirstEven(s: seq<nat>, cnt: seq<int>, sz: seq<int>, d: nat, bulk: bool)
    requires |cnt| == |sz|
  {
    !bulk && |cnt| > 1 ==>
      0 < cnt[0] && cnt[0] + d <= |s| && sz[0] - sz[1] < s[cnt[0] - 1] + s[cnt[0] - 1 + d] + 4
  }

  /** After page i has shared with page i - 1. */
  lemma PairEvened(s: seq<nat>, was: seq<int>, c0: seq<int>, z0: seq<int>, c: seq<int>, z: seq<int>, d: nat,
                   usable: nat, bulk: bool, i: nat)
    requires d <= 1 && 0 < i && RightState(s, was, c0, z0, d, usable, i) && Sharing(s, c0, z0, c, z, d, usable, i)
    requires InRange(s, was) && Settled(s, was, d, usable, i - 1) && c0[i - 1] < |s| && Evened(s, c0, c, d, bulk, i)
    ensures PairOk(s, c, z, d, usable, bulk, i)
  {
    SharingStarts(s, was, c0, z0, d, usable, i);
    EvenedMeans(s, c0, z0, c, z, d, usable, bulk, i);
    assert PageOk(s, c0, d, usable, i) && PageOk(s, c0, d, usable, i - 1);
    assert ExactAt(s, c0, z0, d, i) && ExactAt(s, c0, z0, d, i - 1);
    assert c0[i - 1] == c0[..i][i - 1] == was[..i][i - 1] == was[i - 1];
    assert i > 1 ==> c0[i - 2] == c0[..i][i - 2] == was[..i][i - 2] == was[i - 2];
    assert Load(s, was, i - 1, d) == Load(s, c0, i - 1, d);
    if c[i - 1] == c0[i - 1] {
    } else if z0[i] == 0 && c[i - 1] == c0[i - 1] - 1 {
      LoadSign(s, c0, d, i);
    }
  }

  lemma PairsKept(s: seq<nat>, c0: seq<int>, z0: seq<int>, c: seq<int>, z: seq<int>, d: nat, usable: nat, bulk: bool,
                  i: nat)
    requires d <= 1 && Sharing(s, c0, z0, c, z, d, usable, i) && InRange(s, c0) && z0[i] <= z[i]
    requires PairsFrom(s, c0, z0, d, usable, bulk, i + 1) && PairOk(s, c, z, d, usable, bulk, i)
    ensures PairsFrom(s, c, z, d, usable, bulk, i)
  {
    forall h | 0 < h < |c| && i <= h ensures PairOk(s, c, z, d, usable, bulk, h) {
      assert h > i ==> PairOk(s, c0, z0, d, usable, bulk, h);
    }
  }

  /** The right page has only grown. */
  lemma RightGrows(s: seq<nat>, c0: seq<int>, z0: seq<int>, c: seq<int>, z: seq<int>, d: nat, usable: nat, i: nat)
    requires d <= 1 && Sharing(s, c0, z0, c, z, d, usable, i) && InRange(s, c0) && Exact(s, c0, z0, d)
    ensures z0[i] <= z[i]
  {
    assert ExactAt(s, c0, z0, d, i) && ExactAt(s, c, z, d, i);
    PrefixMonotone(s, c[i - 1] + d, c0[i - 1] + d);
  }

  /** Filling from the left takes the fewest pages. */
  lemma FewestPages(s: seq<nat>, cnt: seq<int>, sz: seq<int>, q: seq<int>, d: nat, usable: nat)
    requires LeftState(s, cnt, sz, d, usable, |cnt|) && Partition(s, q, d, usable)
    ensures |cnt| <= |q|
  {
    if |q| < |cnt| {
      assert Settled(s, cnt, d, usable, |q| - 1);
      GreedyDominates(s, cnt, q, d, usable, |q| - 1);
    }
  }

  /** The final packing: a partition with exact sizes, no sibling empty if there are several, and
      neighbours as even as the cells between them allow. */
  ghost predicate Balanced(s: seq<nat>, cnt: seq<int>, sz: seq<int>, d: nat, usable: nat, bulk: bool) {
    && Partition(s, cnt, d, usable)
    && Exact(s, cnt, sz, d)
    && PairsFrom(s, cnt, sz, d, usable, bulk, 1) && FirstEven(s, cnt, sz, d, bulk)
    && (|cnt| > 1 ==> forall j :: 0 <= j < |cnt| ==> NonEmpty(cnt, d, j))
  }

  lemma RightStarts(s: seq<nat>, cnt: seq<int>, sz: seq<int>, d: nat, usable: nat)
    requires d <= 1 && Fits(s, usable)
    requires LeftState(s, cnt, sz, d, usable, |cnt|)
    ensures RightState(s, cnt, cnt, sz, d, usable, |cnt| - 1)
  {
    SettledIsPartition(s, cnt, sz, d, usable);
    forall j | 0 <= j < |cnt| - 1
      ensures NonEmpty(cnt, d, j)
    {
      assert Settled(s, cnt, d, usable, j);
    }
    assert PageOk(s, cnt, d, usable, |cnt| - 1);
  }

  /** The only way to drain a page completely: a chain that reaches page 0. */
  lemma Drained(s: seq<nat>, was: seq<int>, c0: seq<int>, z0: seq<int>, c: seq<int>, z: seq<int>, d: nat, usable: nat,
                i: nat)
    requires d <= 1 && 0 < i
    requires RightState(s, was, c0, z0, d, usable, i)
    requires Sharing(s, c0, z0, c, z, d, usable, i)
    requires c[i - 1] <= Before(c, i - 1)
    ensures Chain(was, d, 0)
  {
    SharingStarts(s, was, c0, z0, d, usable, i);
    assert PageOk(s, c0, d, usable, i) && PageOk(s, c0, d, usable, i - 1);
    assert c0[i - 1] == c0[..i][i - 1] == was[..i][i - 1] == was[i - 1];
  }

  /** Second loop of the packing: even out the siblings from the right.  It gives up
      exactly when the first loop left an empty last page and only single-cell pages
      before it. */
  method Rebalance(s: seq<nat>, usable: nat, leafData: bool, bulk: bool, cntNew: array<int>, szNew: array<int>, k: nat)
    returns (ok: bool)
    requires cntNew != szNew && 0 < k <= cntNew.Length == szNew.Length
    requires Fits(s, usable)
    requires LeftState(s, cntNew[..k], szNew[..k], if leafData then 0 else 1, usable, k)
    modifies cntNew, szNew
    ensures ok <==> k == 1 || !Chain(old(cntNew[..k]), if leafData then 0 else 1, 0)
    ensures ok ==> Balanced(s, cntNew[..k], szNew[..k], if leafData then 0 else 1, usable, bulk)
  {
    ghost var d := if leafData then 0 else 1;
    ghost var was := cntNew[..k];
    RightStarts(s, was, szNew[..k], d, usable);
    var i := k - 1;
    while i > 0
      invariant 0 <= i < k
      invariant RightState(s, was, cntNew[..k], szNew[..k], d, usable, i)
      invariant i < k - 1 ==> Before(cntNew[..k], i) < cntNew[i]
      invariant PairsFrom(s, cntNew[..k], szNew[..k], d, usable, bulk, i + 1)
      invariant i == 0 ==> FirstEven(s, cntNew[..k], szNew[..k], d, bulk)
    {
      ghost var c0, z0 := cntNew[..k], szNew[..k];
      ShareWithLeft(s, usable, leafData, bulk, cntNew, szNew, i, k, was);
      ghost var c, z := cntNew[..k], szNew[..k];
      SharingStarts(s, was, c0, z0, d, usable, i);
      if cntNew[i - 1] <= if i > 1 then cntNew[i - 2] else 0 {
        Drained(s, was, c0, z0, c, z, d, usable, i);
        return false;
      }
      SharingEnds(s, was, c0, z0, c, z, d, usable, i);
      assert Settled(s, was, d, usable, i - 1);
      PairEvened(s, was, c0, z0, c, z, d, usable, bulk, i);
      RightGrows(s, c0, z0, c, z, d, usable, i);
      PairsKept(s, c0, z0, c, z, d, usable, bulk, i);
      EvenedMeans(s, c0, z0, c, z, d, usable, bulk, i);
      i := i - 1;
    }
    return true;
  }

  /** Any two cells fit on a page together. */
  predicate PairsFit(s: seq<nat>, usable: nat) {
    forall i, j :: 0 <= i < |s| && 0 <= j < |s| ==> (2 + s[i]) + (2 + s[j]) <= usable
  }

  /** A chain needs divider cells, and two cells too big to share page 0. */
  lemma ChainNeedsBigCells(s: seq<nat>, cnt: seq<int>, sz: seq<int>, d: nat, usable: nat)
    requires d <= 1
    requires LeftState(s, cnt, sz, d, usable, |cnt|) && |cnt| > 1
    requires d == 0 || PairsFit(s, usable)
    ensures !Chain(cnt, d, 0)
  {
    if d == 0 {
      assert Settled(s, cnt, d, usable, |cnt| - 2);
      ChainEnd(cnt, d, 0);
    } else {
      assert Settled(s, cnt, d, usable, 0);
      assert Prefix(s, 1) == 2 + s[0];
    }
  }

  lemma {:induction false} ChainEnd(cnt: seq<int>, d: nat, i: nat)
    requires i < |cnt|
    ensures Chain(cnt, d, i) ==> Start(cnt, |cnt| - 1, d) == cnt[|cnt| - 1]
    decreases |cnt| - i
  {
    if i == |cnt| - 1 {
    } else {
      ChainEnd(cnt, d, i + 1);
    }
  }

  /** The load of the old pages: free space and overflow cells were counted exactly. */
  ghost predicate OldLoads(s: seq<nat>, cntOld: seq<int>, szOld: seq<int>, d: nat) {
    && 0 < |cntOld|
    && InRange(s, cntOld) && Exact(s, cntOld, szOld, d)
    && cntOld[|cntOld| - 1] == |s|
  }

  /** The packing computation of balance_nonroot.  `maxPages` is NB + 2.

      That each cell fits a page is needed, for the code does not test it: with dividers, cells of
      10, 10 and 200 bytes on one old page and 100 usable bytes, the first loop makes the last cell
      the divider before an empty page, and the second loop moves it onto that page. */
  method Pack(s: seq<nat>, cntOld: seq<int>, szOld: seq<int>, usable: nat, leafData: bool, bulk: bool, maxPages: nat)
    returns (r: Outcome)
    requires OldLoads(s, cntOld, szOld, if leafData then 0 else 1)
    requires |cntOld| <= maxPages
    requires Fits(s, usable)
    ensures r.Packed? ==>
      && |r.cnt| <= maxPages
      && Balanced(s, r.cnt, r.sz, if leafData then 0 else 1, usable, bulk)
      && forall q :: Partition(s, q, if leafData then 0 else 1, usable) ==> |r.cnt| <= |q|
    ensures leafData || PairsFit(s, usable) ==>
      (r.Packed? <==> exists q :: |q| <= maxPages && Partition(s, q, if leafData then 0 else 1, usable))
  {
    ghost var d := if leafData then 0 else 1;
    var cntNew := new int[maxPages];
    var szNew := new int[maxPages];
    var k := |cntOld|;
    for i := 0 to k
      invariant cntNew[..i] == cntOld[..i] && szNew[..i] == szOld[..i]
    {
      szNew[i] := szOld[i];
      cntNew[i] := cntOld[i];
    }
    assert cntNew[..k] == cntOld && szNew[..k] == szOld;
    var ok;
    ok, k := PackLeft(s, k, usable, leafData, cntNew, szNew);
    if !ok {
      return Corrupt;
    }
    ghost var cnt, sz := cntNew[..k], szNew[..k];
    SettledIsPartition(s, cnt, sz, d, usable);
    forall q | Partition(s, q, d, usable) ensures k <= |q| {
      FewestPages(s, cnt, sz, q, d, usable);
    }
    if leafData || PairsFit(s, usable) {
      if k > 1 {
        ChainNeedsBigCells(s, cnt, sz, d, usable);
      }
    }
    ok := Rebalance(s, usable, leafData, bulk, cntNew, szNew, k);
    if !ok {
      return Corrupt;
    }
    return Packed(cntNew[..k], szNew[..k]);
  }

  /** The cells of page j. */
  function PageCells<T>(cells: seq<T>, cnt: seq<int>, d: nat, j: nat): (c: seq<T>)
    requires j < |cnt|
    requires 0 <= Start(cnt, j, d) <= cnt[j] <= |cells|
  {
    cells[Start(cnt, j, d)..cnt[j]]
  }

  /** Siblings `pages[j..]` read left to right, with the divider `div[h]` after page h
      where the tree has dividers. */
  function ReadAcross<T>(pages: seq<seq<T>>, div: seq<T>, j: nat): (c: seq<T>)
    requires j < |pages|
    decreases |pages| - j
  {
    if j == |pages| - 1 then pages[j]
    else pages[j] + (if j < |div| then [div[j]] else []) + ReadAcross(pages, div, j + 1)
  }

  ghost predicate HoldsAt<T>(pages: seq<seq<T>>, div: seq<T>, cells: seq<T>, cnt: seq<int>, d: nat, j: nat)
    requires j < |cnt| == |pages|
  {
    && 0 <= Start(cnt, j, d) <= cnt[j] <= |cells|
    && pages[j] == PageCells(cells, cnt, d, j)
    && (d == 1 && j < |cnt| - 1 ==> cnt[j] < |cells| && |div| == |cnt| - 1 && div[j] == cells[cnt[j]])
  }

  /** The siblings `pages` and the dividers `div` hold the cells as the boundaries say. */
  ghost predicate Holds<T>(pages: seq<seq<T>>, div: seq<T>, cells: seq<T>, cnt: seq<int>, d: nat) {
    && 0 < |cnt| == |pages| && cnt[|cnt| - 1] == |cells|
    && |div| == (if d == 0 then 0 else |cnt| - 1)
    && forall j :: 0 <= j < |cnt| ==> HoldsAt(pages, div, cells, cnt, d, j)
  }

  /** Siblings that hold the cells lose, repeat and reorder nothing: read left to right, with
      the dividers between them, they give back the cell sequence. */
  lemma {:induction false} HoldsAll<T>(pages: seq<seq<T>>, div: seq<T>, cells: seq<T>, cnt: seq<int>, d: nat, j: nat)
    requires d <= 1 && Holds(pages, div, cells, cnt, d) && j < |cnt|
    ensures 0 <= Start(cnt, j, d) <= |cells|
    ensures ReadAcross(pages, div, j) == cells[Start(cnt, j, d)..]
    decreases |cnt| - j
  {
    assert HoldsAt(pages, div, cells, cnt, d, j);
    if j == |cnt| - 1 {
      assert cells[Start(cnt, j, d)..cnt[j]] == cells[Start(cnt, j, d)..];
    } else {
      HoldsAll(pages, div, cells, cnt, d, j + 1);
      var mid := if j < |div| then [div[j]] else [];
      assert mid == cells[cnt[j]..cnt[j] + d] by {
        assert HoldsAt(pages, div, cells, cnt, d, j + 1);
      }
      assert ReadAcross(pages, div, j) == pages[j] + mid + ReadAcross(pages, div, j + 1);
      Cut(cells, Start(cnt, j, d), cnt[j], cnt[j] + d);
    }
  }

  lemma Cut<T>(q: seq<T>, a: nat, b: nat, c: nat)
    requires a <= b <= c <= |q|
    ensures q[a..] == q[a..b] + q[b..c] + q[c..]
  {
  }
}
