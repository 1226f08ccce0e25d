/** Counts over the rows of an index in order, from the only thing that ANALYZE is told about
    each row: the left-most column in which it differs from the row before. */
module Stat4Counts {
  import Arithmetic

  /** `chng[k]` belongs to row k; there are nCol columns, and no two rows agree in all. */
  ghost predicate Stream(chng: seq<nat>, nCol: nat) {
    && 0 < nCol && chng != [] && chng[0] == 0
    && forall k :: 0 <= k < |chng| ==> chng[k] < nCol
  }

  /** The first row that agrees with row b in columns 0 .. j. */
  ghost function Start(chng: seq<nat>, b: nat, j: nat): (a: nat)
    requires b < |chng|
    ensures a <= b
  {
    if b == 0 || chng[b] <= j then b else Start(chng, b - 1, j)
  }

  /** One more than the last row that agrees with row b in columns 0 .. j. */
  ghost function Stop(chng: seq<nat>, b: nat, j: nat): (e: nat)
    requires b < |chng|
    ensures b < e <= |chng|
    decreases |chng| - b
  {
    if b + 1 == |chng| || chng[b + 1] <= j then b + 1 else Stop(chng, b + 1, j)
  }

  /** How many rows agree with row b in columns 0 .. j. */
  ghost function Equal(chng: seq<nat>, b: nat, j: nat): (n: nat)
    requires b < |chng|
    ensures n > 0
  {
    Stop(chng, b, j) - Start(chng, b, j)
  }

  /** How many different values columns 0 .. j have before row b. */
  ghost function Changes(chng: seq<nat>, b: nat, j: nat): nat
    requires b < |chng|
  {
    if b == 0 then 0 else Changes(chng, b - 1, j) + if chng[b] <= j then 1 else 0
  }

  /** Row b agrees with the last row in columns 0 .. j. */
  ghost predicate Open(chng: seq<nat>, b: nat, j: nat)
    requires b < |chng|
  {
    Start(chng, b, j) == Start(chng, |chng| - 1, j)
  }

  // ----- what the starts and stops mean

  /** Rows from a group's start on, up to any of its rows, are in the group. */
  lemma {:induction false} InGroup(chng: seq<nat>, a: nat, b: nat, j: nat)
    requires a <= b < |chng| && Start(chng, b, j) <= a
    ensures Start(chng, a, j) == Start(chng, b, j) && Stop(chng, a, j) == Stop(chng, b, j)
    decreases b - a
  {
    if a == b {
    } else {
      InGroup(chng, a, b - 1, j);
    }
  }

  lemma SameStart(chng: seq<nat>, a: nat, b: nat, j: nat)
    requires a <= b < |chng|
    ensures Start(chng, a, j) == Start(chng, b, j) <==> Start(chng, b, j) <= a
    ensures Start(chng, a, j) == Start(chng, b, j) ==> Stop(chng, a, j) == Stop(chng, b, j)
  {
    if Start(chng, b, j) <= a {
      InGroup(chng, a, b, j);
    }
  }

  lemma OpenStop(chng: seq<nat>, b: nat, j: nat)
    requires b < |chng| && Open(chng, b, j)
    ensures Equal(chng, b, j) == |chng| - Start(chng, |chng| - 1, j)
  {
    SameStart(chng, b, |chng| - 1, j);
  }

  /** Agreeing in fewer columns is easier. */
  lemma {:induction false} StartFalls(chng: seq<nat>, b: nat, i: nat, j: nat)
    requires b < |chng| && i <= j
    ensures Start(chng, b, i) <= Start(chng, b, j)
    decreases b
  {
    if b == 0 || chng[b] <= j {
    } else {
      StartFalls(chng, b - 1, i, j);
    }
  }

  lemma {:induction false} StopRises(chng: seq<nat>, b: nat, i: nat, j: nat)
    requires b < |chng| && i <= j
    ensures Stop(chng, b, j) <= Stop(chng, b, i)
    decreases |chng| - b
  {
    if b + 1 >= |chng| || chng[b + 1] <= j {
    } else {
      StopRises(chng, b + 1, i, j);
    }
  }

  lemma OpenFewer(chng: seq<nat>, b: nat, i: nat, j: nat)
    requires b < |chng| && i <= j && Open(chng, b, j)
    ensures Open(chng, b, i)
  {
    StartFalls(chng, |chng| - 1, i, j);
    SameStart(chng, b, |chng| - 1, j);
    SameStart(chng, b, |chng| - 1, i);
  }

  // ----- one more row

  lemma {:induction false} StartGrows(chng: seq<nat>, c: nat, b: nat, j: nat)
    requires b < |chng|
    ensures Start(chng + [c], b, j) == Start(chng, b, j) && Changes(chng + [c], b, j) == Changes(chng, b, j)
    decreases b
  {
    if b == 0 {
    } else {
      StartGrows(chng, c, b - 1, j);
    }
  }

  lemma {:induction false} StopGrows(chng: seq<nat>, c: nat, b: nat, j: nat)
    requires b < |chng|
    ensures c <= j ==> Stop(chng + [c], b, j) == Stop(chng, b, j)
    ensures Stop(chng, b, j) < |chng| ==> Stop(chng + [c], b, j) == Stop(chng, b, j)
    decreases |chng| - b
  {
    if b + 1 >= |chng| || chng[b + 1] <= j {
    } else {
      StopGrows(chng, c, b + 1, j);
    }
  }

  /** A group whose rows do not include the last row is complete. */
  lemma {:induction false} ClosedStop(chng: seq<nat>, b: nat, j: nat)
    requires b < |chng| && !Open(chng, b, j)
    ensures Stop(chng, b, j) < |chng|
    decreases |chng| - b
  {
    if b + 1 == |chng| {
      assert false;
    } else if chng[b + 1] > j {
      ClosedStop(chng, b + 1, j);
    }
  }

  lemma Grow(chng: seq<nat>, c: nat, b: nat, j: nat)
    requires b < |chng|
    ensures c <= j || !Open(chng, b, j) ==> Equal(chng + [c], b, j) == Equal(chng, b, j)
    ensures Open(chng + [c], b, j) <==> c > j && Open(chng, b, j)
    ensures Start(chng + [c], b, j) == Start(chng, b, j) && Changes(chng + [c], b, j) == Changes(chng, b, j)
  {
    StartGrows(chng, c, b, j);
    StopGrows(chng, c, b, j);
    StartGrows(chng, c, |chng| - 1, j);
    assert Start(chng + [c], |chng|, j) == if c <= j then |chng| else Start(chng, |chng| - 1, j);
    if !Open(chng, b, j) {
      ClosedStop(chng, b, j);
    }
  }

  // ----- in terms of the rows

  /** Rows of nCol values each, in ascending order; chng[k] is where row k differs first. */
  ghost predicate Rows(rows: seq<seq<int>>, chng: seq<nat>, nCol: nat) {
    && Stream(chng, nCol) && |rows| == |chng|
    && (forall k :: 0 <= k < |rows| ==> |rows[k]| == nCol)
    && forall k :: 0 < k < |rows| ==> StepAt(rows, chng, nCol, k)
  }

  ghost predicate StepAt(rows: seq<seq<int>>, chng: seq<nat>, nCol: nat, k: nat)
    requires 0 < k < |rows| == |chng|
  {
    var p := k - 1;
    && chng[k] < nCol == |rows[k]| == |rows[p]|
    && rows[p][..chng[k]] == rows[k][..chng[k]] && rows[p][chng[k]] < rows[k][chng[k]]
  }

  /** r comes before s in columns 0 .. j. */
  ghost predicate Less(r: seq<int>, s: seq<int>, j: nat)
    requires j < |r| && j < |s|
  {
    exists i {:trigger r[i]} :: 0 <= i <= j && r[..i] == s[..i] && r[i] < s[i]
  }

  /** Earlier rows are equal up to column j if they are in the same group, and less if not. */
  lemma {:induction false} Compare(rows: seq<seq<int>>, chng: seq<nat>, nCol: nat, a: nat, b: nat, j: nat)
    requires Rows(rows, chng, nCol) && a <= b < |rows| && j < nCol
    ensures Start(chng, a, j) == Start(chng, b, j) ==> rows[a][..j + 1] == rows[b][..j + 1]
    ensures Start(chng, a, j) != Start(chng, b, j) ==> Less(rows[a], rows[b], j)
    decreases b - a
  {
    SameStart(chng, a, b, j);
    if a < b {
      Compare(rows, chng, nCol, a, b - 1, j);
      SameStart(chng, a, b - 1, j);
      assert StepAt(rows, chng, nCol, b);
      var p, q, r, c := rows[a], rows[b - 1], rows[b], chng[b];
      if Start(chng, a, j) == Start(chng, b, j) {
        assert c > j;
        assert q[..j + 1] == q[..c][..j + 1] && r[..j + 1] == r[..c][..j + 1];
      } else if Start(chng, a, j) == Start(chng, b - 1, j) {
        assert c <= j;
        assert p[..c] == p[..j + 1][..c] && q[..c] == q[..j + 1][..c];
        assert p[c] == p[..j + 1][c] && q[c] == q[..j + 1][c];
        assert p[c] < r[c];
      } else {
        LessOn(p, q, r, c, j);
      }
    }
  }

  lemma LessOn(p: seq<int>, q: seq<int>, r: seq<int>, c: nat, j: nat)
    requires |p| == |q| == |r| && c < |p| && j < |p| && Less(p, q, j) && q[..c] == r[..c] && q[c] < r[c]
    ensures Less(p, r, j)
  {
    var i :| 0 <= i <= j && p[..i] == q[..i] && p[i] < q[i];
    if i < c {
      assert q[..i] == q[..c][..i] && r[..i] == r[..c][..i] && q[i] == q[..c][i] && r[i] == r[..c][i];
      assert p[..i] == r[..i] && p[i] < r[i];
    } else {
      assert p[..c] == p[..i][..c] && q[..c] == q[..i][..c];
      assert c < i ==> p[c] == p[..i][c] && q[c] == q[..i][c];
      assert p[..c] == r[..c] && p[c] < r[c];
    }
  }

  lemma PrefixDiffers(r: seq<int>, s: seq<int>, i: nat, k: nat)
    requires i < k <= |r| && k <= |s| && r[i] != s[i]
    ensures r[..k] != s[..k]
  {
    assert r[..k][i] == r[i] && s[..k][i] == s[i];
  }

  lemma LessNotEqual(r: seq<int>, s: seq<int>, j: nat)
    requires j < |r| && j < |s| && Less(r, s, j)
    ensures r[..j + 1] != s[..j + 1] && !Less(s, r, j)
  {
    var i :| 0 <= i <= j && r[..i] == s[..i] && r[i] < s[i];
    PrefixDiffers(r, s, i, j + 1);
    forall k | 0 <= k <= j && s[..k] == r[..k] ensures s[k] >= r[k] {
      if k < i {
        assert r[k] == r[..i][k] && s[k] == s[..i][k];
      } else if i < k {
        PrefixDiffers(r, s, i, k);
      }
    }
  }

  ghost function EqualRows(rows: seq<seq<int>>, b: nat, j: nat): set<nat>
    requires b < |rows| && forall k :: 0 <= k < |rows| ==> j < |rows[k]|
  {
    set k: nat | k < |rows| && rows[k][..j + 1] == rows[b][..j + 1]
  }

  ghost function LessRows(rows: seq<seq<int>>, b: nat, j: nat): set<nat>
    requires b < |rows| && forall k :: 0 <= k < |rows| ==> j < |rows[k]|
  {
    set k: nat | k < |rows| && Less(rows[k], rows[b], j)
  }

  lemma {:induction false} GroupRange(chng: seq<nat>, b: nat, k: nat, j: nat)
    requires b < |chng| && k < |chng|
    ensures Start(chng, k, j) == Start(chng, b, j) <==> Start(chng, b, j) <= k < Stop(chng, b, j)
    decreases |chng| - b
  {
    if k <= b {
      SameStart(chng, k, b, j);
    } else {
      SameStart(chng, b, k, j);
      if chng[b + 1] > j {
        GroupRange(chng, b + 1, k, j);
      } else {
        StartAfter(chng, b + 1, k, j);
      }
    }
  }

  lemma {:induction false} StartAfter(chng: seq<nat>, a: nat, b: nat, j: nat)
    requires 0 < a <= b < |chng| && chng[a] <= j
    ensures Start(chng, b, j) >= a
    decreases b
  {
    if a == b {
    } else {
      StartAfter(chng, a, b - 1, j);
    }
  }

  /** The counts are the numbers of rows equal to and less than row b in columns 0 .. j. */
  lemma CountsMean(rows: seq<seq<int>>, chng: seq<nat>, nCol: nat, b: nat, j: nat)
    requires Rows(rows, chng, nCol) && b < |rows| && j < nCol
    ensures |EqualRows(rows, b, j)| == Equal(chng, b, j) && |LessRows(rows, b, j)| == Start(chng, b, j)
  {
    var s, e := Start(chng, b, j), Stop(chng, b, j);
    forall k: nat | k < |rows|
      ensures rows[k][..j + 1] == rows[b][..j + 1] <==> s <= k < e
      ensures Less(rows[k], rows[b], j) <==> k < s
    {
      GroupRange(chng, b, k, j);
      if k <= b {
        Compare(rows, chng, nCol, k, b, j);
        SameStart(chng, k, b, j);
      } else {
        Compare(rows, chng, nCol, b, k, j);
        SameStart(chng, b, k, j);
      }
      if Less(rows[k], rows[b], j) {
        LessNotEqual(rows[k], rows[b], j);
      }
      if Less(rows[b], rows[k], j) {
        LessNotEqual(rows[b], rows[k], j);
      }
    }
    assert EqualRows(rows, b, j) == Arithmetic.Range(s, e);
    assert LessRows(rows, b, j) == Arithmetic.Range(0, s);
  }

  /** The values that columns 0 .. j have in the first m rows. */
  ghost function Prefixes(rows: seq<seq<int>>, m: nat, j: nat): set<seq<int>>
    requires m <= |rows| && forall k :: 0 <= k < |rows| ==> j < |rows[k]|
  {
    set k: nat | k < m :: rows[k][..j + 1]
  }

  lemma {:induction false} PrefixCount(rows: seq<seq<int>>, chng: seq<nat>, nCol: nat, b: nat, j: nat)
    requires Rows(rows, chng, nCol) && b < |rows| && j < nCol
    ensures |Prefixes(rows, b + 1, j)| == Changes(chng, b, j) + 1
  {
    var x := rows[b][..j + 1];
    if b == 0 {
      assert Prefixes(rows, 1, j) == {x};
    } else {
      PrefixCount(rows, chng, nCol, b - 1, j);
      assert Prefixes(rows, b + 1, j) == Prefixes(rows, b, j) + {x};
      if chng[b] <= j {
        forall k: nat | k < b ensures rows[k][..j + 1] != x {
          Compare(rows, chng, nCol, k, b, j);
          LessNotEqual(rows[k], rows[b], j);
        }
      } else {
        Compare(rows, chng, nCol, b - 1, b, j);
        assert rows[b - 1][..j + 1] == x;
      }
    }
  }

  lemma {:induction false} StartChanges(chng: seq<nat>, b: nat, j: nat)
    requires b < |chng|
    ensures var a := Start(chng, b, j); Changes(chng, a, j) == Changes(chng, b, j) && (a > 0 ==> chng[a] <= j)
    decreases b
  {
    if b == 0 || chng[b] <= j {
    } else {
      StartChanges(chng, b - 1, j);
    }
  }

  /** How many different values less than that of row b columns 0 .. j have. */
  lemma ChangesMean(rows: seq<seq<int>>, chng: seq<nat>, nCol: nat, b: nat, j: nat)
    requires Rows(rows, chng, nCol) && b < |rows| && j < nCol
    ensures |Prefixes(rows, Start(chng, b, j), j)| == Changes(chng, b, j)
  {
    StartChanges(chng, b, j);
    var a := Start(chng, b, j);
    if a > 0 {
      PrefixCount(rows, chng, nCol, a - 1, j);
    } else {
      assert Prefixes(rows, 0, j) == {};
    }
  }
}
