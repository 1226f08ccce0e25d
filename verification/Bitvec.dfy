/** Bitvec: a fixed-size set of bit numbers 1 .. iSize kept in one of three forms. */
module BitvecModel {
  import opened HashTable
  import Arithmetic

  // ----- one byte of the bitmap form

  predicate TestBit(b: bv8, k: nat)
    requires k < 8
  {
    b & ((1 as bv8) << k) != 0
  }

  lemma SetBit(b: bv8, k: nat, m: nat)
    requires k < 8 && m < 8
    ensures TestBit(b | ((1 as bv8) << k), m) <==> m == k || TestBit(b, m)
  {
  }

  lemma ClearBit(b: bv8, k: nat, m: nat)
    requires k < 8 && m < 8
    ensures TestBit(b & !((1 as bv8) << k), m) <==> m != k && TestBit(b, m)
  {
  }

  function BitSet(b: bv8, k: nat): (r: bv8)
    requires k < 8
    ensures forall m: nat :: m < 8 ==> (TestBit(r, m) <==> if m == k then true else TestBit(b, m))
  {
    assert forall m: nat :: m < 8 ==> (TestBit(b | ((1 as bv8) << k), m) <==> m == k || TestBit(b, m)) by {
      forall m: nat | m < 8 ensures TestBit(b | ((1 as bv8) << k), m) <==> m == k || TestBit(b, m) {
        SetBit(b, k, m);
      }
    }
    b | ((1 as bv8) << k)
  }

  function BitCleared(b: bv8, k: nat): (r: bv8)
    requires k < 8
    ensures forall m: nat :: m < 8 ==> (TestBit(r, m) <==> if m == k then false else TestBit(b, m))
  {
    assert forall m: nat :: m < 8 ==> (TestBit(b & !((1 as bv8) << k), m) <==> m != k && TestBit(b, m)) by {
      forall m: nat | m < 8 ensures TestBit(b & !((1 as bv8) << k), m) <==> m != k && TestBit(b, m) {
        ClearBit(b, k, m);
      }
    }
    b & !((1 as bv8) << k)
  }

  predicate HasBit(bm: seq<bv8>, i: nat)
    requires i / 8 < |bm|
  {
    TestBit(bm[i / 8], i % 8)
  }

  /** Bitmaps that differ in byte i / 8 only, and there in bit i % 8 only, where r has `v`. */
  lemma OneBit(bm: seq<bv8>, r: seq<bv8>, i: nat, v: bool)
    requires i / 8 < |bm| == |r| && forall x :: 0 <= x < |bm| && x != i / 8 ==> r[x] == bm[x]
    requires forall m: nat :: m < 8 ==> (TestBit(r[i / 8], m) <==> if m == i % 8 then v else TestBit(bm[i / 8], m))
    ensures forall j :: 0 <= j / 8 < |bm| ==> (HasBit(r, j) <==> if j == i then v else HasBit(bm, j))
  {
    forall j | 0 <= j / 8 < |bm| ensures HasBit(r, j) <==> if j == i then v else HasBit(bm, j) {
      assert j == 8 * (j / 8) + j % 8 && i == 8 * (i / 8) + i % 8;
    }
  }

  function WithBit(bm: seq<bv8>, i: nat): (r: seq<bv8>)
    requires i / 8 < |bm|
    ensures |r| == |bm|
    ensures forall j :: 0 <= j / 8 < |bm| ==> (HasBit(r, j) <==> if j == i then true else HasBit(bm, j))
  {
    var b := BitSet(bm[i / 8], i % 8);
    OneBit(bm, bm[i / 8 := b], i, true);
    bm[i / 8 := b]
  }

  function WithoutBit(bm: seq<bv8>, i: nat): (r: seq<bv8>)
    requires i / 8 < |bm|
    ensures |r| == |bm|
    ensures forall j :: 0 <= j / 8 < |bm| ==> (HasBit(r, j) <==> if j == i then false else HasBit(bm, j))
  {
    var b := BitCleared(bm[i / 8], i % 8);
    OneBit(bm, bm[i / 8 := b], i, false);
    bm[i / 8 := b]
  }

  // ----- the divided form

  /** Sub-vector and number within it of bit number x. */
  function Bin(x: nat, div: nat): (b: nat)
    requires 0 < x && 0 < div
  {
    (x - 1) / div
  }

  function Low(x: nat, div: nat): (l: nat)
    requires 0 < x && 0 < div
    ensures 1 <= l <= div
  {
    (x - 1) % div + 1
  }

  lemma BinLowInjective(x: nat, y: nat, div: nat)
    requires 0 < x && 0 < y && 0 < div
    requires Bin(x, div) == Bin(y, div) && Low(x, div) == Low(y, div)
    ensures x == y
  {
    assert x - 1 == (x - 1) / div * div + (x - 1) % div;
    assert y - 1 == (y - 1) / div * div + (y - 1) % div;
  }

  /** `members` is what the sub-vectors' members `parts` stand for. */
  ghost predicate Joined(members: set<nat>, parts: seq<set<nat>>, div: nat, size: nat) {
    && 0 < div
    && (forall x :: x in members ==> 1 <= x <= size)
    && (forall x :: 1 <= x <= size ==> JoinedAt(members, parts, div, x))
  }

  ghost predicate JoinedAt(members: set<nat>, parts: seq<set<nat>>, div: nat, x: nat)
    requires 0 < div && 0 < x
  {
    Bin(x, div) < |parts| && (x in members <==> Low(x, div) in parts[Bin(x, div)])
  }

  lemma JoinedAdd(members: set<nat>, parts: seq<set<nat>>, div: nat, size: nat, i: nat)
    requires Joined(members, parts, div, size) && 1 <= i <= size
    ensures Bin(i, div) < |parts|
    ensures var b := Bin(i, div); Joined(members + {i}, parts[b := parts[b] + {Low(i, div)}], div, size)
  {
    assert JoinedAt(members, parts, div, i);
    var b := Bin(i, div);
    var parts' := parts[b := parts[b] + {Low(i, div)}];
    forall x | 1 <= x <= size ensures JoinedAt(members + {i}, parts', div, x) {
      assert JoinedAt(members, parts, div, x);
      if Bin(x, div) == b && Low(x, div) == Low(i, div) {
        BinLowInjective(x, i, div);
      }
    }
  }

  lemma JoinedRemove(members: set<nat>, parts: seq<set<nat>>, div: nat, size: nat, i: nat)
    requires Joined(members, parts, div, size) && 1 <= i <= size
    ensures Bin(i, div) < |parts|
    ensures var b := Bin(i, div); Joined(members - {i}, parts[b := parts[b] - {Low(i, div)}], div, size)
  {
    assert JoinedAt(members, parts, div, i);
    var b := Bin(i, div);
    var parts' := parts[b := parts[b] - {Low(i, div)}];
    forall x | 1 <= x <= size ensures JoinedAt(members - {i}, parts', div, x) {
      assert JoinedAt(members, parts, div, x);
      if Bin(x, div) == b && Low(x, div) == Low(i, div) {
        BinLowInjective(x, i, div);
      }
    }
  }

  /** The number of bits per sub-vector: enough sub-vectors, and each smaller than the whole. */
  function Divisor(size: nat, nPtr: nat): (div: nat)
    requires 2 <= size && 2 <= nPtr
    ensures 0 < div < size
    ensures forall x :: 1 <= x <= size ==> Bin(x, div) < nPtr
  {
    var div := (size + nPtr - 1) / nPtr;
    DivisorFits(size, nPtr, div);
    div
  }

  /** Where the sum is taken in 32 bits, it is the divisor if and only if it does not wrap around;
      else it is 0. */
  lemma NarrowDivisor(size: nat, nPtr: nat)
    requires 2 <= size <= U32_MAX && 2 <= nPtr <= U32_MAX
    ensures var narrow := (size + nPtr - 1) % (U32_MAX + 1) / nPtr;
      && (narrow == Divisor(size, nPtr) <==> size + nPtr - 1 <= U32_MAX)
      && (size + nPtr - 1 > U32_MAX ==> narrow == 0)
  {
    var sum := size + nPtr - 1;
    if sum > U32_MAX {
      Arithmetic.Euclid(sum, U32_MAX + 1, 1, sum - (U32_MAX + 1));
      Arithmetic.Euclid(sum - (U32_MAX + 1), nPtr, 0, sum - (U32_MAX + 1));
    } else {
      Arithmetic.Euclid(sum, U32_MAX + 1, 0, sum);
    }
  }

  lemma DivisorFits(size: nat, nPtr: nat, div: nat)
    requires 2 <= size && 2 <= nPtr && div == (size + nPtr - 1) / nPtr
    ensures 0 < div < size
    ensures forall x :: 1 <= x <= size ==> Bin(x, div) < nPtr
  {
    assert div * nPtr <= size + nPtr - 1 < div * nPtr + nPtr;
    Smaller(size, nPtr, div);
    forall x | 1 <= x <= size ensures Bin(x, div) < nPtr {
      BelowProduct(x - 1, nPtr, div);
    }
  }

  lemma Smaller(size: nat, m: nat, div: nat)
    requires 2 <= size && 2 <= m && div * m <= size + m - 1
    ensures div < size
  {
    assert (size - 1) * (m - 1) >= 1;
  }

  lemma BelowProduct(a: nat, m: nat, div: nat)
    requires 0 < div && a < div * m
    ensures a / div < m
  {
    assert a / div * div <= a;
  }

  // ----- the object

  const U32_MAX := 0xFFFF_FFFF

  /** BITVEC_NELEM, BITVEC_NINT and BITVEC_NPTR: what the union holds in each form. */
  datatype Layout = Layout(nElem: nat, nInt: nat, nPtr: nat) {
    predicate Ok() {
      1 <= nElem && 2 <= nInt && 2 <= nPtr
    }

    function NBit(): nat {
      nElem * 8
    }

    function MxHash(): nat {
      nInt / 2
    }
  }

  datatype Store = Bitmap(bytes: seq<bv8>) | Hash(slots: seq<nat>) | Subs(ptr: seq<Bitvec?>)

  class Bitvec {
    const lay: Layout
    const iSize: nat
    var nSet: nat
    var iDivisor: nat
    var u: Store

    /** The set this object stands for. */
    ghost var Members: set<nat>
    /** In the divided form, the members of each sub-vector. */
    ghost var parts: seq<set<nat>>
    ghost var Repr: set<Bitvec>

    ghost predicate Valid()
      reads this, Repr
      decreases Repr
      ensures Valid() ==> this in Repr
    {
      && this in Repr && lay.Ok() && iSize <= U32_MAX
      && (forall x :: x in Members ==> 1 <= x <= iSize)
      && match u {
           case Bitmap(bytes) =>
             && iSize <= lay.NBit() && iDivisor == 0 && |bytes| == lay.nElem
             && forall x :: 1 <= x <= iSize ==> (x in Members <==> HasBit(bytes, x - 1))
           case Hash(slots) =>
             && iSize > lay.NBit() && iDivisor == 0 && |slots| == lay.nInt
             && Table(slots) && nSet == |Values(slots)| && Members == Values(slots)
           case Subs(ptr) =>
             && iSize > lay.NBit() && 0 < iDivisor < iSize
             && |ptr| == |parts| == lay.nPtr
             && Joined(Members, parts, iDivisor, iSize)
             && (forall b :: 0 <= b < |ptr| && ptr[b] != null ==> ptr[b] in Repr && ptr[b].Repr <= Repr)
             && (forall b :: 0 <= b < |ptr| ==> SubValid(ptr[b], parts[b], this, Repr))
             && (forall b, c :: 0 <= b < c < |ptr| ==> Apart(ptr[b], ptr[c]))
         }
    }

    /** Sub-vector `s` is absent, or is a valid vector of iDivisor bits owned by `owner`. */
    static ghost predicate SubValid(s: Bitvec?, part: set<nat>, owner: Bitvec, repr: set<Bitvec>)
      reads owner, s, if s == null then {} else s.Repr
      requires owner in repr
      decreases repr, 0
    {
      if s == null then part == {}
      else
        && s in repr && s.Repr <= repr && owner !in s.Repr
        && s.lay == owner.lay && s.iSize == owner.iDivisor
        && s.Valid() && s.Members == part
    }

    static ghost predicate Apart(s: Bitvec?, t: Bitvec?)
      reads s, t
    {
      s != null && t != null ==> s.Repr !! t.Repr
    }

    constructor (lay: Layout, iSize: nat)
      requires lay.Ok() && iSize <= U32_MAX
      ensures Valid() && fresh(Repr)
      ensures this.lay == lay && this.iSize == iSize && iDivisor == 0
      ensures Members == {}
    {
      this.lay := lay;
      this.iSize := iSize;
      nSet := 0;
      iDivisor := 0;
      u := if iSize <= lay.NBit() then Bitmap(seq(lay.nElem, _ => 0)) else Hash(seq(lay.nInt, _ => 0));
      Members := {};
      parts := [];
      Repr := {this};
      new;
      if u.Hash? {
        EmptyIsTable(u.slots);
      }
    }

    /** Is bit i set?  Any 32-bit i is allowed; those outside 1 .. iSize are not set. */
    method Test(i: nat) returns (r: bool)
      requires Valid() && i <= U32_MAX
      ensures r <==> i in Members
    {
      var x: nat := if i == 0 then U32_MAX else i - 1;  // unsigned i - 1
      if x >= iSize {
        return false;
      }
      var p: Bitvec := this;
      while p.iDivisor != 0
        invariant p.Valid() && x < p.iSize
        invariant i in Members <==> x + 1 in p.Members
        decreases p.iSize
      {
        assert JoinedAt(p.Members, p.parts, p.iDivisor, x + 1);
        var bin := x / p.iDivisor;
        assert SubValid(p.u.ptr[bin], p.parts[bin], p, p.Repr);
        x := x % p.iDivisor;
        if p.u.ptr[bin] == null {
          return false;
        }
        p := p.u.ptr[bin];
      }
      if p.iSize <= p.lay.NBit() {
        return HasBit(p.u.bytes, x);
      } else {
        var h;
        h, r := Probe(p.u.slots, x + 1);
      }
    }

    /** Set bit i. */
    method Set(i: nat)
      requires Valid() && 1 <= i <= iSize
      modifies Repr
      ensures Valid() && fresh(Repr - old(Repr))
      ensures Members == old(Members) + {i}
      ensures old(iDivisor) != 0 ==> iDivisor == old(iDivisor)
      decreases iSize, if iDivisor == 0 then 1 else 0, 2
    {
      if iSize > lay.NBit() && iDivisor != 0 {
        SetInSub(i);
      } else if iSize <= lay.NBit() {
        u := Bitmap(WithBit(u.bytes, i - 1));
        Members := Members + {i};
      } else {
        SetInHash(i);
      }
    }

    method SetInHash(i: nat)
      requires Valid() && 1 <= i <= iSize && u.Hash?
      modifies Repr
      ensures Valid() && fresh(Repr - old(Repr))
      ensures Members == old(Members) + {i}
      decreases iSize, 1, 1
    {
      var h, found := Probe(u.slots, i);
      if u.slots[Home(i, lay.nInt)] == 0 {
        if nSet >= lay.nInt - 1 {
          Subdivide(i);
          return;
        }
      } else {
        if found {
          return;
        }
        if nSet >= lay.MxHash() {
          Subdivide(i);
          return;
        }
      }
      StoreInHash(h, i);
    }

    method StoreInHash(h: nat, i: nat)
      requires Valid() && 1 <= i <= iSize && u.Hash?
      requires h < |u.slots| && u.slots[h] == 0 && i !in u.slots && nSet + 1 < lay.nInt
      requires forall q :: 0 <= q < |u.slots| && OnPath(Home(i, |u.slots|), q, h) ==> u.slots[q] != 0
      modifies this
      ensures Valid() && Repr == old(Repr)
      ensures Members == old(Members) + {i}
    {
      Insert(u.slots, h, i);
      nSet := nSet + 1;
      u := Hash(u.slots[h := i]);
      Members := Members + {i};
    }

    /** The divided form: hand bit i to its sub-vector, creating that first if need be. */
    method SetInSub(i: nat)
      requires Valid() && 1 <= i <= iSize && u.Subs?
      modifies Repr
      ensures Valid() && fresh(Repr - old(Repr))
      ensures Members == old(Members) + {i}
      ensures iDivisor == old(iDivisor) && u.Subs?
      decreases iSize, 0, 1
    {
      JoinedAdd(Members, parts, iDivisor, iSize, i);
      var bin := Bin(i, iDivisor);
      if u.ptr[bin] == null {
        CreateSub(bin);
      }
      SetInExisting(i, bin, Low(i, iDivisor));
    }

    method CreateSub(bin: nat)
      requires Valid() && u.Subs? && bin < |u.ptr| && u.ptr[bin] == null
      modifies this
      ensures Valid() && fresh(Repr - old(Repr)) && old(Repr) <= Repr
      ensures Members == old(Members) && parts == old(parts)
      ensures iDivisor == old(iDivisor) && u.Subs? && |u.ptr| == old(|u.ptr|) && u.ptr[bin] != null
    {
      var s := new Bitvec(lay, iDivisor);
      label made:
      assert SubValid(u.ptr[bin], parts[bin], this, Repr);
      ghost var ptr0, repr0 := u.ptr, Repr;
      u := Subs(u.ptr[bin := s]);
      Repr := Repr + s.Repr;
      forall b | 0 <= b < |u.ptr|
        ensures SubValid(u.ptr[b], parts[b], this, Repr)
        ensures b != bin ==> Apart(u.ptr[b], s)
      {
        assert old@made(SubValid(ptr0[b], parts[b], this, repr0));
      }
    }

    method SetInExisting(i: nat, bin: nat, low: nat)
      requires Valid() && 1 <= i <= iSize && u.Subs?
      requires bin < |u.ptr| && u.ptr[bin] != null && 1 <= low <= iDivisor
      requires Joined(Members + {i}, parts[bin := parts[bin] + {low}], iDivisor, iSize)
      modifies Repr
      ensures Valid() && fresh(Repr - old(Repr))
      ensures Members == old(Members) + {i}
      ensures iDivisor == old(iDivisor) && u.Subs?
      decreases iSize, 0, 0
    {
      var s: Bitvec := u.ptr[bin];
      assert SubValid(s, parts[bin], this, Repr);
      s.Set(low);
      Members := Members + {i};
      parts := parts[bin := s.Members];
      Repr := Repr + s.Repr;
      forall b | 0 <= b < |u.ptr|
        ensures SubValid(u.ptr[b], parts[b], this, Repr)
        ensures b != bin ==> Apart(u.ptr[b], s)
      {
        assert old(SubValid(u.ptr[b], parts[b], this, Repr));
        assert b < bin ==> old(Apart(u.ptr[b], u.ptr[bin]));
        assert bin < b ==> old(Apart(u.ptr[bin], u.ptr[b]));
      }
      forall b, c | 0 <= b < c < |u.ptr|
        ensures Apart(u.ptr[b], u.ptr[c])
      {
        assert old(Apart(u.ptr[b], u.ptr[c]));
        assert b != bin ==> SubValid(u.ptr[b], parts[b], this, Repr);
      }
    }

    /** The hash table has become too full: turn to the divided form. */
    method Subdivide(i: nat)
      requires Valid() && 1 <= i <= iSize && u.Hash?
      modifies Repr
      ensures Valid() && fresh(Repr - old(Repr))
      ensures Members == old(Members) + {i}
      decreases iSize, 1, 0
    {
      var aiValues := u.slots;
      ghost var was := Members;
      DropAll();
      Set(i);
      for j := 0 to |aiValues|
        invariant Valid() && fresh(Repr - old(Repr)) && iDivisor != 0
        invariant Members == Values(aiValues[..j]) + {i}
      {
        ValuesSnoc(aiValues, j);
        if aiValues[j] != 0 {
          assert aiValues[j] in was;
          Set(aiValues[j]);
        }
      }
      assert aiValues[..|aiValues|] == aiValues;
    }

    /** Forget the hash table and start an empty divided form. */
    method DropAll()
      requires Valid() && u.Hash?
      modifies this
      ensures Valid() && Repr == old(Repr) && Members == {} && iDivisor != 0
    {
      u := Subs(seq(lay.nPtr, _ => null));
      iDivisor := Divisor(iSize, lay.nPtr);
      Members := {};
      parts := seq(lay.nPtr, _ => {});
      assert Joined(Members, parts, iDivisor, iSize) by {
        forall x | 1 <= x <= iSize ensures JoinedAt(Members, parts, iDivisor, x) {
        }
      }
    }

    /** Clear bit i. */
    method Clear(i: nat)
      requires Valid() && 1 <= i <= iSize
      modifies Repr
      ensures Valid() && Repr == old(Repr)
      ensures Members == old(Members) - {i}
      decreases iSize, 1
    {
      if iDivisor != 0 {
        JoinedRemove(Members, parts, iDivisor, iSize, i);
        assert JoinedAt(Members, parts, iDivisor, i);
        var bin := Bin(i, iDivisor);
        assert SubValid(u.ptr[bin], parts[bin], this, Repr);
        if u.ptr[bin] == null {
          return;
        }
        ClearInExisting(i, bin, Low(i, iDivisor));
      } else if iSize <= lay.NBit() {
        u := Bitmap(WithoutBit(u.bytes, i - 1));
        Members := Members - {i};
      } else {
        var slots;
        slots, nSet := Rebuild(u.slots, i);
        u := Hash(slots);
        Members := Members - {i};
      }
    }

    method ClearInExisting(i: nat, bin: nat, low: nat)
      requires Valid() && 1 <= i <= iSize && u.Subs?
      requires bin < |u.ptr| && u.ptr[bin] != null && 1 <= low <= iDivisor
      requires Joined(Members - {i}, parts[bin := parts[bin] - {low}], iDivisor, iSize)
      modifies Repr
      ensures Valid() && Repr == old(Repr)
      ensures Members == old(Members) - {i}
      decreases iSize, 0
    {
      var s: Bitvec := u.ptr[bin];
      assert SubValid(s, parts[bin], this, Repr);
      s.Clear(low);
      Members := Members - {i};
      parts := parts[bin := s.Members];
      forall b | 0 <= b < |u.ptr|
        ensures SubValid(u.ptr[b], parts[b], this, Repr)
      {
        assert old(SubValid(u.ptr[b], parts[b], this, Repr));
        assert b < bin ==> old(Apart(u.ptr[b], u.ptr[bin]));
        assert bin < b ==> old(Apart(u.ptr[bin], u.ptr[b]));
      }
      forall b, c | 0 <= b < c < |u.ptr|
        ensures Apart(u.ptr[b], u.ptr[c])
      {
        assert old(Apart(u.ptr[b], u.ptr[c]));
      }
    }
  }

  // ----- whole runs

  datatype Op = SetOp(i: nat) | ClearOp(i: nat)

  /** The plain set a run of operations leaves. */
  ghost function Replay(ops: seq<Op>): set<nat> {
    if ops == [] then {}
    else
      var last := ops[|ops| - 1];
      var before := Replay(ops[..|ops| - 1]);
      match last
      case SetOp(i) => before + {i}
      case ClearOp(i) => before - {i}
  }

  /** Bit x was set in the run and not cleared since. */
  ghost predicate SetLast(ops: seq<Op>, x: nat) {
    exists j :: 0 <= j < |ops| && ops[j] == SetOp(x) && forall h :: j < h < |ops| ==> ops[h] != ClearOp(x)
  }

  lemma {:induction false} ReplayMeansSetLast(ops: seq<Op>, x: nat)
    ensures x in Replay(ops) <==> SetLast(ops, x)
  {
    if ops == [] {
    } else {
      var n := |ops| - 1;
      var before := ops[..n];
      ReplayMeansSetLast(before, x);
      if SetLast(before, x) && ops[n] != ClearOp(x) {
        var j :| 0 <= j < n && before[j] == SetOp(x) && forall h :: j < h < n ==> before[h] != ClearOp(x);
        assert ops[j] == SetOp(x) && forall h :: j < h < |ops| ==> ops[h] != ClearOp(x);
      }
      if SetLast(ops, x) && ops[n] != SetOp(x) {
        var j :| 0 <= j < |ops| && ops[j] == SetOp(x) && forall h :: j < h < |ops| ==> ops[h] != ClearOp(x);
        assert before[j] == SetOp(x) && forall h :: j < h < n ==> before[h] != ClearOp(x);
      }
    }
  }

  /** Run the operations on a new Bitvec. */
  method Build(lay: Layout, size: nat, ops: seq<Op>) returns (v: Bitvec)
    requires lay.Ok() && size <= U32_MAX
    requires forall op :: op in ops ==> 1 <= op.i <= size
    ensures v.Valid() && fresh(v.Repr) && v.iSize == size
    ensures v.Members == Replay(ops)
  {
    v := new Bitvec(lay, size);
    for j := 0 to |ops|
      invariant v.Valid() && fresh(v.Repr) && v.iSize == size
      invariant v.Members == Replay(ops[..j])
    {
      assert ops[..j + 1][..j] == ops[..j];
      assert ops[j] in ops;
      match ops[j] {
        case SetOp(i) => v.Set(i);
        case ClearOp(i) => v.Clear(i);
      }
    }
    assert ops[..|ops|] == ops;
  }

  /** For every size, every layout and every run of in-range operations on a new Bitvec:
      a bit is reported as set exactly if it was set and not cleared since. */
  method RunAndTest(lay: Layout, size: nat, ops: seq<Op>, x: nat) returns (answer: bool)
    requires lay.Ok() && size <= U32_MAX && x <= U32_MAX
    requires forall op :: op in ops ==> 1 <= op.i <= size
    ensures answer <==> SetLast(ops, x)
  {
    var v := Build(lay, size, ops);
    ReplayMeansSetLast(ops, x);
    answer := v.Test(x);
  }
}
