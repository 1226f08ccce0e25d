/** Pointer-map arithmetic of an auto-vacuum database.

    `n` is the number of entries on a pointer-map page (usableSize / 5) and `pend` the page
    that holds the pending byte, which is never used.  Pointer-map pages stand at the start of
    groups of n + 1 pages, the first at page 2; one that would fall on the pending-byte page
    stands one page further on. */
module PtrMap {
  import Arithmetic

  /** The pointer-map page that has the entry for page pgno; 0 for page 1. */
  function PtrmapPageno(n: nat, pend: nat, pgno: nat): (r: nat) {
    if pgno < 2 then 0
    else
      var ret := (pgno - 2) / (n + 1) * (n + 1) + 2;
      if ret == pend then ret + 1 else ret
  }

  /** PTRMAP_PTROFFSET. */
  function PtrOffset(mapPage: nat, pgno: nat): int {
    5 * (pgno - mapPage - 1)
  }

  predicate IsMapPage(n: nat, pend: nat, pgno: nat) {
    PtrmapPageno(n, pend, pgno) == pgno
  }

  /** A page that can hold content: page 0 does not exist. */
  predicate Ordinary(n: nat, pend: nat, pgno: nat) {
    0 < pgno && !IsMapPage(n, pend, pgno) && pgno != pend
  }

  ghost function CountOrdinary(n: nat, pend: nat, upTo: nat): nat {
    if upTo == 0 then 0
    else CountOrdinary(n, pend, upTo - 1) + if Ordinary(n, pend, upTo) then 1 else 0
  }

  // ----- the place of a page within its group

  /** 0 for the first page of a group, where the map page normally is. */
  function Slot(n: nat, pgno: nat): (s: nat)
    requires 1 <= pgno
    ensures s <= n && (2 <= pgno ==> 2 <= pgno - s)
    ensures pgno == 1 ==> s == n
  {
    if pgno == 1 then n else (pgno - 2) % (n + 1)
  }

  lemma NextSlot(n: nat, pgno: nat)
    requires 1 <= pgno
    ensures Slot(n, pgno + 1) == if Slot(n, pgno) == n then 0 else Slot(n, pgno) + 1
  {
    if pgno > 1 {
      var q, s := (pgno - 2) / (n + 1), Slot(n, pgno);
      if s == n {
        Arithmetic.Euclid(pgno - 1, n + 1, q + 1, 0);
      } else {
        Arithmetic.Euclid(pgno - 1, n + 1, q, s + 1);
      }
    }
  }

  lemma StartSlot(n: nat, pgno: nat)
    requires 2 <= pgno
    ensures Slot(n, pgno - Slot(n, pgno)) == 0
  {
    Arithmetic.Euclid(pgno - 2 - Slot(n, pgno), n + 1, (pgno - 2) / (n + 1), 0);
  }

  lemma PagenoBySlot(n: nat, pend: nat, pgno: nat)
    requires 2 <= pgno
    ensures PtrmapPageno(n, pend, pgno) ==
      var start := pgno - Slot(n, pgno); if start == pend then pend + 1 else start
  {
  }

  /** The page other than group starts that is not ordinary: the pending-byte page, or the
      map page it pushed aside. */
  ghost function Odd(n: nat, pend: nat): nat
    requires 2 <= pend
  {
    if Slot(n, pend) == 0 then pend + 1 else pend
  }

  lemma OrdinaryBySlot(n: nat, pend: nat, pgno: nat)
    requires 1 <= n && 2 < pend && 2 <= pgno
    ensures Ordinary(n, pend, pgno) <==> Slot(n, pgno) != 0 && pgno != Odd(n, pend)
    ensures Slot(n, Odd(n, pend)) != 0
  {
    PagenoBySlot(n, pend, pgno);
    StartSlot(n, pgno);
    NextSlot(n, pend);
  }

  /** Which pages are pointer-map pages: page 2 and every (n + 1)-th after it; one that would fall on
      the pending-byte page is the page after that. */
  lemma MapPages(n: nat, pend: nat, pgno: nat)
    requires 1 <= n && 2 < pend && 2 <= pgno
    ensures IsMapPage(n, pend, pgno) <==>
      (pgno != pend && (pgno - 2) % (n + 1) == 0) || (pgno == pend + 1 && (pend - 2) % (n + 1) == 0)
  {
    PagenoBySlot(n, pend, pgno);
    StartSlot(n, pgno);
    NextSlot(n, pend);
  }

  /** Distinct ordinary pages have distinct, non-overlapping entries, each within its
      pointer-map page, which is no ordinary page and comes before the page it describes. */
  lemma SlotsAreDistinct(usable: nat, pend: nat, p: nat, p': nat)
    requires 10 <= usable && 2 < pend && 2 < p && 2 < p' && p != p'
    requires Ordinary(usable / 5, pend, p) && Ordinary(usable / 5, pend, p')
    ensures var n := usable / 5; var m, m' := PtrmapPageno(n, pend, p), PtrmapPageno(n, pend, p');
      && 2 <= m < p && IsMapPage(n, pend, m)
      && 0 <= PtrOffset(m, p) <= usable - 5
      && (m == m' ==> PtrOffset(m, p) + 5 <= PtrOffset(m', p') || PtrOffset(m', p') + 5 <= PtrOffset(m, p))
  {
    var n := usable / 5;
    OrdinaryBySlot(n, pend, p);
    PagenoBySlot(n, pend, p);
    StartSlot(n, p);
    var m := PtrmapPageno(n, pend, p);
    PagenoBySlot(n, pend, m);
    NextSlot(n, pend);
  }

  // ----- finalDbSize

  /** The pages that start no group. */
  ghost function CountPlain(n: nat, upTo: nat): nat {
    if upTo == 0 then 0 else CountPlain(n, upTo - 1) + if Slot(n, upTo) != 0 then 1 else 0
  }

  lemma {:induction false} CountByPlain(n: nat, pend: nat, upTo: nat)
    requires 1 <= n && 2 < pend
    ensures CountOrdinary(n, pend, upTo) == CountPlain(n, upTo) - if upTo >= Odd(n, pend) then 1 else 0
  {
    if upTo == 0 {
    } else {
      CountByPlain(n, pend, upTo - 1);
      if upTo > 1 {
        OrdinaryBySlot(n, pend, upTo);
      }
      OrdinaryBySlot(n, pend, Odd(n, pend));
    }
  }

  /** The plain page before plain page a. */
  ghost function Prev(n: nat, a: nat): (p: nat)
    requires 3 <= a && Slot(n, a) != 0
  {
    if Slot(n, a) == 1 then a - 2 else a - 1
  }

  lemma PrevFacts(n: nat, a: nat)
    requires 1 <= n && 3 <= a && Slot(n, a) != 0
    ensures var p := Prev(n, a);
      && CountPlain(n, p) == CountPlain(n, a) - 1
      && Slot(n, p) == (if Slot(n, a) == 1 then n else Slot(n, a) - 1)
      && (p < a - 1 ==> Slot(n, a - 1) == 0)
  {
    NextSlot(n, a - 1);
    NextSlot(n, a - 2);
  }

  /** The plain page x places before plain page a, and the number k of group starts in
      between: it lies x + k pages back, and k is the quotient the source computes. */
  lemma {:induction false} Back(n: nat, a: nat, x: nat) returns (b: nat, k: nat)
    requires 1 <= n && 1 <= a && Slot(n, a) != 0 && x < CountPlain(n, a)
    ensures 1 <= b && Slot(n, b) != 0 && b + x + k == a
    ensures CountPlain(n, b) == CountPlain(n, a) - x
    ensures x - Slot(n, a) + n == k * n + (n - Slot(n, b))
  {
    if x == 0 {
      b, k := a, 0;
    } else {
      var b', k' := Back(n, a, x - 1);
      assert CountPlain(n, b') >= 2;
      PrevFacts(n, b');
      b := Prev(n, b');
      k := if Slot(n, b') == 1 then k' + 1 else k';
      assert (k' + 1) * n == k' * n + n;
    }
  }

  function U32(x: int): (r: nat) {
    x % 0x1_0000_0000
  }

  /** From page `fin` the ordinary pages at or below it begin with page t. */
  ghost predicate LeadsTo(n: nat, pend: nat, fin: nat, t: nat) {
    && t <= fin && Ordinary(n, pend, t)
    && forall k :: t < k <= fin ==> !Ordinary(n, pend, k)
  }

  function MapPagesFreed(n: nat, pend: nat, nOrig: nat, nFree: nat): nat
    requires 0 < n
  {
    Div(U32(nFree - nOrig + PtrmapPageno(n, pend, nOrig) + n), n)
  }

  function Div(x: nat, n: nat): nat
    requires 0 < n
  {
    x / n
  }

  /** The size computed before the source's closing loop. */
  function Estimate(n: nat, pend: nat, nOrig: nat, nFree: nat): (fin: int)
    requires 0 < n
  {
    var nFin := nOrig - nFree - MapPagesFreed(n, pend, nOrig, nFree);
    if nOrig > pend && nFin < pend then nFin - 1 else nFin
  }

  lemma LeadsOn(n: nat, pend: nat, fin: nat, t: nat)
    requires LeadsTo(n, pend, fin, t)
    ensures Ordinary(n, pend, fin) ==> fin == t
    ensures !Ordinary(n, pend, fin) ==> t < fin && LeadsTo(n, pend, fin - 1, t)
  {
  }

  lemma Freed(n: nat, pend: nat, nOrig: nat, nFree: nat, r: nat, k: nat, s: nat)
    requires 1 <= s <= n <= 0xFFFF && nFree < 0x8000_0000
    requires nOrig - PtrmapPageno(n, pend, nOrig) == r <= n
    requires nFree - r + n == k * n + (n - s)
    ensures MapPagesFreed(n, pend, nOrig, nFree) == k
  {
    Arithmetic.Euclid(nFree - r + n, n, k, n - s);
  }

  /** The last map page is an ordinary group start. */
  lemma EstimateUsual(n: nat, pend: nat, nOrig: nat, nFree: nat) returns (t: nat)
    requires 2 <= n <= 0xFFFF && 2 < pend && 3 <= nOrig < 0x8000_0000
    requires Ordinary(n, pend, nOrig) && nFree < CountOrdinary(n, pend, nOrig)
    requires nOrig - Slot(n, nOrig) != pend
    ensures 0 < Estimate(n, pend, nOrig, nFree) <= nOrig && LeadsTo(n, pend, Estimate(n, pend, nOrig, nFree), t)
    ensures CountOrdinary(n, pend, t) == CountOrdinary(n, pend, nOrig) - nFree
  {
    OrdinaryBySlot(n, pend, nOrig);
    CountByPlain(n, pend, nOrig);
    var b, k := Back(n, nOrig, nFree);
    PagenoBySlot(n, pend, nOrig);
    Freed(n, pend, nOrig, nFree, Slot(n, nOrig), k, Slot(n, b));
    t := Target(n, pend, nOrig, b);
  }

  /** Where the closing loop goes from plain page b. */
  lemma Target(n: nat, pend: nat, nOrig: nat, b: nat) returns (t: nat)
    requires 2 <= n && 2 < pend && 3 <= nOrig && Ordinary(n, pend, nOrig)
    requires 1 <= b <= nOrig && Slot(n, b) != 0
    requires CountPlain(n, b) > if nOrig >= Odd(n, pend) && b <= Odd(n, pend) then 1 else 0
    ensures var fin := if nOrig > pend && b < pend then b - 1 else b; LeadsTo(n, pend, fin, t)
    ensures CountOrdinary(n, pend, t) == CountPlain(n, b) - if nOrig >= Odd(n, pend) then 1 else 0
  {
    CountByPlain(n, pend, b);
    OrdinaryBySlot(n, pend, nOrig);
    if b > 1 {
      OrdinaryBySlot(n, pend, b);
    }
    if nOrig >= Odd(n, pend) && b <= Odd(n, pend) {
      assert b >= 3;
      PrevFacts(n, b);
      t := Prev(n, b);
      CountByPlain(n, pend, t);
      if t > 1 {
        OrdinaryBySlot(n, pend, t);
      }
      OrdinaryBySlot(n, pend, b - 1);
    } else {
      t := b;
    }
  }

  /** The last map page was pushed aside by the pending-byte page. */
  lemma EstimateAside(n: nat, pend: nat, nOrig: nat, nFree: nat) returns (t: nat)
    requires 2 <= n <= 0xFFFF && 2 < pend && 3 <= nOrig < 0x8000_0000
    requires Ordinary(n, pend, nOrig) && nFree < CountOrdinary(n, pend, nOrig)
    requires nOrig - Slot(n, nOrig) == pend
    ensures 0 < Estimate(n, pend, nOrig, nFree) <= nOrig && LeadsTo(n, pend, Estimate(n, pend, nOrig, nFree), t)
    ensures CountOrdinary(n, pend, t) == CountOrdinary(n, pend, nOrig) - nFree
  {
    StartSlot(n, nOrig);
    OrdinaryBySlot(n, pend, nOrig);
    CountByPlain(n, pend, nOrig);
    var b, k := Back(n, nOrig, nFree + 1);
    PagenoBySlot(n, pend, nOrig);
    Freed(n, pend, nOrig, nFree, Slot(n, nOrig) - 1, k, Slot(n, b));
    SameGroup(n, nOrig, pend, nFree, b, k);
    t := if b >= pend then b + 1 else b;
    CountAside(n, pend, nOrig, b, t);
  }

  lemma SameGroup(n: nat, nOrig: nat, pend: nat, nFree: nat, b: nat, k: nat)
    requires 1 <= b && 1 <= nOrig && nOrig - Slot(n, nOrig) == pend && b + nFree + 1 + k == nOrig
    requires nFree + 1 - Slot(n, nOrig) + n == k * n + (n - Slot(n, b))
    ensures k == 0 ==> Slot(n, b) == b - pend
    ensures k > 0 ==> b < pend
  {
    if k > 0 {
      assert (k - 1) * n >= 0;
    }
  }

  lemma CountAside(n: nat, pend: nat, nOrig: nat, b: nat, t: nat)
    requires 2 <= n && 2 < pend && Slot(n, pend) == 0
    requires 1 <= b < nOrig && Slot(n, b) != 0 && nOrig - Slot(n, nOrig) == pend
    requires b >= pend ==> Slot(n, b) == b - pend
    requires t == if b >= pend then b + 1 else b
    ensures LeadsTo(n, pend, if b + 1 < pend then b else b + 1, t)
    ensures CountOrdinary(n, pend, t) == CountPlain(n, b)
  {
    CountByPlain(n, pend, t);
    NextSlot(n, b);
    if t > 1 {
      OrdinaryBySlot(n, pend, t);
    }
  }

  lemma EstimateLeads(n: nat, pend: nat, nOrig: nat, nFree: nat) returns (t: nat)
    requires 2 <= n <= 0xFFFF && 2 < pend && 3 <= nOrig < 0x8000_0000
    requires Ordinary(n, pend, nOrig) && nFree < CountOrdinary(n, pend, nOrig)
    ensures 0 < Estimate(n, pend, nOrig, nFree) <= nOrig
    ensures LeadsTo(n, pend, Estimate(n, pend, nOrig, nFree), t)
    ensures CountOrdinary(n, pend, t) == CountOrdinary(n, pend, nOrig) - nFree
  {
    if nOrig - Slot(n, nOrig) == pend {
      t := EstimateAside(n, pend, nOrig, nFree);
    } else {
      t := EstimateUsual(n, pend, nOrig, nFree);
    }
  }

  lemma OnePage(n: nat, pend: nat)
    requires 2 <= n && 2 < pend
    ensures CountOrdinary(n, pend, 1) == 1 && Estimate(n, pend, 1, 0) == 1 && LeadsTo(n, pend, 1, 1)
  {
    assert CountOrdinary(n, pend, 0) == 0;
  }

  /** The closing loop of finalDbSize. */
  method SkipSpecial(n: nat, pend: nat, fin: nat, ghost t: nat) returns (nFin: nat)
    requires LeadsTo(n, pend, fin, t)
    ensures nFin == t
  {
    nFin := fin;
    while IsMapPage(n, pend, nFin) || nFin == pend
      invariant LeadsTo(n, pend, nFin, t)
      decreases nFin
    {
      LeadsOn(n, pend, nFin, t);
      nFin := nFin - 1;
    }
    LeadsOn(n, pend, nFin, t);
  }

  /** finalDbSize: the result is an ordinary page, and exactly nFree ordinary pages lie
      between it and nOrig. */
  method FinalDbSize(usableSize: nat, pend: nat, nOrig: nat, nFree: nat) returns (nFin: nat)
    requires 10 <= usableSize <= 65536 && 2 < pend && nOrig < 0x8000_0000
    requires Ordinary(usableSize / 5, pend, nOrig)
    requires nFree < CountOrdinary(usableSize / 5, pend, nOrig)
    ensures nFin <= nOrig && Ordinary(usableSize / 5, pend, nFin)
    ensures CountOrdinary(usableSize / 5, pend, nFin) == CountOrdinary(usableSize / 5, pend, nOrig) - nFree
  {
    var nEntry := usableSize / 5;
    ghost var t := 1;
    if nOrig > 1 {
      t := EstimateLeads(nEntry, pend, nOrig, nFree);
    } else {
      OnePage(nEntry, pend);
    }
    nFin := SkipSpecial(nEntry, pend, Estimate(nEntry, pend, nOrig, nFree), t);
  }
}
