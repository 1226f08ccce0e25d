/** The open-addressed hash table inside a Bitvec: `n` slots holding 0 (empty) or a bit
    number, linear probing that wraps around, no deletion of single entries. */
module HashTable {

  /** The slot where the search for bit number v begins. */
  function Home(v: nat, n: nat): (h: nat)
    requires 0 < v && 0 < n
    ensures h < n
  {
    (v - 1) % n
  }

  function Next(h: nat, n: nat): (r: nat)
    requires h < n
    ensures r < n
  {
    if h + 1 >= n then 0 else h + 1
  }

  /** Slot q lies on the probe path from slot a up to, not including, slot b. */
  predicate OnPath(a: nat, q: nat, b: nat) {
    if a <= b then a <= q < b else a <= q || q < b
  }

  ghost function Values(t: seq<nat>): set<nat> {
    set x | x in t && x != 0
  }

  ghost predicate Distinct(t: seq<nat>) {
    forall p, q :: 0 <= p < q < |t| ==> DifferAt(t, p, q)
  }

  ghost predicate DifferAt(t: seq<nat>, p: nat, q: nat)
    requires p < |t| && q < |t|
  {
    t[p] != 0 ==> t[p] != t[q]
  }

  /** No value is separated from its home slot by an empty slot. */
  ghost predicate Reachable(t: seq<nat>) {
    forall p, q :: 0 <= p < |t| && 0 <= q < |t| ==> ReachableAt(t, p, q)
  }

  ghost predicate ReachableAt(t: seq<nat>, p: nat, q: nat)
    requires p < |t| && q < |t|
  {
    t[p] != 0 && OnPath(Home(t[p], |t|), q, p) ==> t[q] != 0
  }

  /** A well-formed table with room for at least one more value. */
  ghost predicate Table(t: seq<nat>) {
    0 < |t| && Distinct(t) && Reachable(t) && |Values(t)| < |t|
  }

  lemma {:induction false} FullTable(t: seq<nat>)
    requires Distinct(t) && forall q :: 0 <= q < |t| ==> t[q] != 0
    ensures |Values(t)| == |t|
  {
    if t == [] {
    } else {
      var rest := t[..|t| - 1];
      forall p, q | 0 <= p < q < |rest| ensures DifferAt(rest, p, q) {
        assert DifferAt(t, p, q);
      }
      FullTable(rest);
      forall p | 0 <= p < |rest| ensures t[p] != t[|t| - 1] {
        assert DifferAt(t, p, |t| - 1);
      }
      assert Values(t) == Values(rest) + {t[|t| - 1]};
    }
  }

  lemma EmptySlotExists(t: seq<nat>)
    requires Table(t)
    ensures exists q :: 0 <= q < |t| && t[q] == 0
  {
    if forall q :: 0 <= q < |t| ==> t[q] != 0 {
      FullTable(t);
    }
  }

  /** How far slot h is from slot e going forward. */
  ghost function Distance(h: nat, e: nat, n: nat): nat
    requires h < n && e < n
  {
    if h <= e then e - h else e + n - h
  }

  /** Search for v.  The probe meets an empty slot after finitely many steps, and finds v
      exactly when v is in the table. */
  method Probe(t: seq<nat>, v: nat) returns (h: nat, found: bool)
    requires Table(t) && 0 < v
    ensures h < |t|
    ensures found <==> v in t
    ensures t[Home(v, |t|)] == 0 ==> h == Home(v, |t|)
    ensures if found then t[h] == v
            else t[h] == 0 && forall q :: 0 <= q < |t| && OnPath(Home(v, |t|), q, h) ==> t[q] != 0
  {
    EmptySlotExists(t);
    ghost var e :| 0 <= e < |t| && t[e] == 0;
    var n := |t|;
    h := Home(v, n);
    ghost var start := h;
    while t[h] != 0
      invariant h < n
      invariant forall q :: 0 <= q < n && OnPath(start, q, h) ==> t[q] != 0 && t[q] != v
      invariant h == start || Distance(start, h, n) + Distance(h, e, n) == Distance(start, e, n)
      decreases Distance(h, e, n)
    {
      if t[h] == v {
        return h, true;
      }
      h := Next(h, n);
    }
    forall p | 0 <= p < n
      ensures t[p] != v
    {
      assert ReachableAt(t, p, h);
    }
    return h, false;
  }

  /** Storing a new value in the slot its probe ended on keeps the table well-formed. */
  lemma Insert(t: seq<nat>, h: nat, v: nat)
    requires Table(t) && 0 < v && v !in t && h < |t| && t[h] == 0
    requires forall q :: 0 <= q < |t| && OnPath(Home(v, |t|), q, h) ==> t[q] != 0
    requires |Values(t)| + 1 < |t|
    ensures Values(t[h := v]) == Values(t) + {v}
    ensures Table(t[h := v])
  {
    var u := t[h := v];
    forall p, q | 0 <= p < |u| && 0 <= q < |u|
      ensures ReachableAt(u, p, q)
      ensures p < q ==> DifferAt(u, p, q)
    {
      assert ReachableAt(t, p, q);
      assert p < q ==> DifferAt(t, p, q);
    }
    forall x | x in Values(t)
      ensures x in u
    {
      var q :| 0 <= q < |t| && t[q] == x;
      assert u[q] == x;
    }
    assert u[h] == v;
    assert Values(u) == Values(t) + {v};
  }

  lemma EmptyIsTable(t: seq<nat>)
    requires 0 < |t| && forall q :: 0 <= q < |t| ==> t[q] == 0
    ensures Table(t) && Values(t) == {}
  {
    assert Values(t) == {};
  }

  lemma ValuesSnoc(t: seq<nat>, j: nat)
    requires j < |t|
    ensures Values(t[..j + 1]) == Values(t[..j]) + if t[j] == 0 then {} else {t[j]}
  {
    assert t[..j + 1] == t[..j] + [t[j]];
  }

  /** Put a new value into the first empty slot on its probe path. */
  method Add(t: seq<nat>, v: nat) returns (u: seq<nat>)
    requires Table(t) && 0 < v && v !in t && |Values(t)| + 1 < |t|
    ensures |u| == |t| && Table(u) && Values(u) == Values(t) + {v}
  {
    var h, found := Probe(t, v);
    Insert(t, h, v);
    u := t[h := v];
  }

  /** The table built afresh from all values of `t` but `drop`. */
  method Rebuild(t: seq<nat>, drop: nat) returns (u: seq<nat>, count: nat)
    requires Table(t)
    ensures |u| == |t| && Table(u)
    ensures Values(u) == Values(t) - {drop}
    ensures count == |Values(u)|
  {
    u := seq(|t|, _ => 0);
    EmptyIsTable(u);
    count := 0;
    for j := 0 to |t|
      invariant Moved(t, u, j, drop)
      invariant count == |Values(u)|
    {
      if t[j] != 0 && t[j] != drop {
        Fresh(t, u, j, drop);
        count := count + 1;
        var w := Add(u, t[j]);
        Advance(t, u, w, j, drop);
        u := w;
      } else {
        Skip(t, u, j, drop);
      }
    }
    assert t[..|t|] == t;
  }

  /** `u` is a table of the values in the first j slots of `t`, all but `drop`. */
  ghost predicate Moved(t: seq<nat>, u: seq<nat>, j: nat, drop: nat)
    requires j <= |t|
  {
    |u| == |t| && Table(u) && Values(u) == Values(t[..j]) - {drop}
  }

  /** A value not yet moved over is not in the new table, which therefore has two empty slots. */
  lemma Fresh(t: seq<nat>, u: seq<nat>, j: nat, drop: nat)
    requires Table(t) && j < |t| && t[j] != 0 && t[j] != drop
    requires Moved(t, u, j, drop)
    ensures t[j] !in u
    ensures |Values(u)| + 1 < |t|
  {
    forall p | 0 <= p < j ensures t[p] != t[j] {
      assert DifferAt(t, p, j);
    }
    assert t[j] !in Values(u);
    Subset(Values(u), Values(t) - {t[j]});
  }

  lemma Advance(t: seq<nat>, u: seq<nat>, w: seq<nat>, j: nat, drop: nat)
    requires j < |t| == |w| && t[j] != 0 && t[j] != drop
    requires Moved(t, u, j, drop) && Table(w) && Values(w) == Values(u) + {t[j]}
    ensures Moved(t, w, j + 1, drop)
  {
    ValuesSnoc(t, j);
  }

  lemma Skip(t: seq<nat>, u: seq<nat>, j: nat, drop: nat)
    requires j < |t| && (t[j] == 0 || t[j] == drop)
    requires Moved(t, u, j, drop)
    ensures Moved(t, u, j + 1, drop)
  {
    ValuesSnoc(t, j);
  }

  lemma {:induction false} Subset(a: set<nat>, b: set<nat>)
    requires a <= b
    ensures |a| <= |b|
  {
    if a == {} {
    } else {
      var x :| x in a;
      Subset(a - {x}, b - {x});
    }
  }
}
