/** The format of cells: header, the part of the payload kept on the page, and how much that
    is. */
module CellFormat {
  import opened Bytes
  import opened Varint
  import Arithmetic
  import PageImage
  import Packing

  datatype Kind = TableLeaf | TableInterior | IndexLeaf | IndexInterior

  predicate PageSizeOk(usable: nat) {
    480 <= usable <= 65536
  }

  function ChildSize(k: Kind): nat {
    if k.TableInterior? || k.IndexInterior? then 4 else 0
  }

  /** The most payload that is kept on the page as a whole, and the least that is kept of a
      payload that is not. */
  function MaxLocal(usable: nat, k: Kind): (n: nat)
    requires PageSizeOk(usable)
    ensures k.IndexLeaf? || k.IndexInterior? ==> 255 * (n + 23) <= 64 * (usable - 12) < 255 * (n + 24)
    ensures k.TableLeaf? || k.TableInterior? ==> n + 35 == usable
  {
    if k.TableLeaf? || k.TableInterior? then usable - 35 else (usable - 12) * 64 / 255 - 23
  }

  function MinLocal(usable: nat): (n: nat)
    requires PageSizeOk(usable)
    ensures 255 * (n + 23) <= 32 * (usable - 12) < 255 * (n + 24)
  {
    (usable - 12) * 32 / 255 - 23
  }

  lemma LocalBounds(usable: nat, k: Kind)
    requires PageSizeOk(usable)
    ensures MinLocal(usable) <= MaxLocal(usable, k) <= usable - 35
    ensures k.IndexLeaf? || k.IndexInterior? ==> 4 * MaxLocal(usable, k) + 92 <= usable - 12 + (usable - 12) / 255 + 1
  {
  }

  /** How much of a payload is kept on the page: so much that the last overflow page is full, if
      that is not too much. */
  function LocalOf(usable: nat, k: Kind, nPayload: nat): (n: nat)
    requires PageSizeOk(usable)
    ensures n <= MaxLocal(usable, k)
    ensures n <= nPayload && (n < nPayload <==> nPayload > MaxLocal(usable, k))
  {
    LocalBounds(usable, k);
    if nPayload <= MaxLocal(usable, k) then nPayload
    else
      var surplus := MinLocal(usable) + (nPayload - MinLocal(usable)) % (usable - 4);
      if surplus <= MaxLocal(usable, k) then surplus else MinLocal(usable)
  }

  /** Every overflow page but the last is full; so is the last one, if the local part is not
      the least there can be. */
  lemma LastPageFull(usable: nat, k: Kind, nPayload: nat)
    requires PageSizeOk(usable) && nPayload > MaxLocal(usable, k) && LocalOf(usable, k, nPayload) != MinLocal(usable)
    ensures (nPayload - LocalOf(usable, k, nPayload)) % (usable - 4) == 0
  {
    LocalBounds(usable, k);
    var x, m := nPayload - MinLocal(usable), usable - 4;
    assert nPayload - LocalOf(usable, k, nPayload) == x - x % m;
    assert x - x % m == x / m * m;
    Arithmetic.Euclid(x / m * m, m, x / m, 0);
  }

  /** Which part is kept of a payload that is too large: of the sizes from the least on, up to one
      overflow page more, the one that fills the last overflow page, if it is not too large itself,
      and else the least. */
  lemma LocalExact(usable: nat, k: Kind, nPayload: nat, m: nat)
    requires PageSizeOk(usable) && nPayload > MaxLocal(usable, k)
    requires MinLocal(usable) <= m < MinLocal(usable) + usable - 4 && m <= nPayload
    requires (nPayload - m) % (usable - 4) == 0
    ensures LocalOf(usable, k, nPayload) == if m <= MaxLocal(usable, k) then m else MinLocal(usable)
  {
    LocalBounds(usable, k);
    var x, d := nPayload - MinLocal(usable), usable - 4;
    var q := (nPayload - m) / d;
    assert x == q * d + (m - MinLocal(usable));
    Arithmetic.Euclid(x, d, q, m - MinLocal(usable));
  }

  /** The least part is about half of the greatest on index pages. */
  lemma HalfLocal(usable: nat)
    requires PageSizeOk(usable)
    ensures 2 * (MinLocal(usable) + 23) <= MaxLocal(usable, IndexLeaf) + 23 <= 2 * (MinLocal(usable) + 23) + 1
  {
  }

  datatype Info = Info(nKey: nat, nPayload: nat, nHeader: nat, nLocal: nat, nSize: nat)

  function Drop(c: seq<byte>, n: nat): seq<byte> {
    if n <= |c| then c[n..] else []
  }

  function SizeOf(usable: nat, k: Kind, nPayload: nat, nHeader: nat): nat
    requires PageSizeOk(usable)
  {
    if nPayload <= MaxLocal(usable, k) then (if nPayload + nHeader < 4 then 4 else nPayload + nHeader)
    else LocalOf(usable, k, nPayload) + nHeader + 4
  }

  /** What a cell's bytes mean. */
  function Parse(usable: nat, k: Kind, c: seq<byte>): Info
    requires PageSizeOk(usable)
  {
    var c1 := Drop(c, ChildSize(k));
    if k.TableInterior? then Info(GetVarint(c1), 0, 4 + VarLen(c1), 0, 4 + VarLen(c1))
    else
      var nPayload, h1 := GetSize(c1), ChildSize(k) + VarLen(c1);
      var c2 := Drop(c, h1);
      var h := if k.TableLeaf? then h1 + VarLen(c2) else h1;
      Info(if k.TableLeaf? then GetVarint(c2) else nPayload, nPayload, h,
           LocalOf(usable, k, nPayload), SizeOf(usable, k, nPayload, h))
  }

  // ----- the parsing loops

  /** Seven more bits, in 32 bits. */
  function Shift7(x: nat, b: byte): nat {
    (x * 128 + b % 128) % 0x1_0000_0000
  }

  lemma ShiftBits(c: seq<byte>, n: nat)
    ensures Shift7(Bits7(c, n) % 0x1_0000_0000, At(c, n)) == Bits7(c, n + 1) % 0x1_0000_0000
  {
    Wrap(Bits7(c, n), At(c, n) % 128);
  }

  lemma Wrap(x: nat, b: nat)
    ensures (x % 0x1_0000_0000 * 128 + b) % 0x1_0000_0000 == (x * 128 + b) % 0x1_0000_0000
  {
  }

  /** The loop that reads a payload size, 32 bits wide. */
  method ReadSize(c: seq<byte>) returns (nPayload: nat, n: nat)
    ensures n == VarLen(c) && nPayload == GetSize(c)
  {
    nPayload := At(c, 0);
    n := 0;
    ShiftBits(c, 0);
    if nPayload >= 0x80 {
      nPayload := nPayload % 128;
      n := 1;
      ShiftBits(c, 1);
      nPayload := Shift7(nPayload, At(c, 1));
      while At(c, n) >= 0x80 && n < 8
        invariant 1 <= n <= 8 && VarLen(c) == LenFrom(c, n) && nPayload == Bits7(c, n + 1) % 0x1_0000_0000
        decreases 8 - n
      {
        n := n + 1;
        ShiftBits(c, n);
        nPayload := Shift7(nPayload, At(c, n));
      }
    }
    n := n + 1;
  }

  /** The loop that reads a key, 64 bits wide. */
  method ReadKey(c: seq<byte>) returns (iKey: nat, n: nat)
    ensures n == VarLen(c) && iKey == GetVarint(c)
  {
    iKey := At(c, 0);
    n := 0;
    assert Bits7(c, 1) == Bits7(c, 0) * 128 + At(c, 0) % 128;
    if iKey >= 0x80 {
      iKey := iKey % 128;
      while true
        invariant 0 <= n <= 6 && iKey == Bits7(c, n + 1) && VarLen(c) == LenFrom(c, n + 1)
        decreases 7 - n
      {
        n := n + 1;
        iKey := iKey * 128 + At(c, n) % 128;
        if At(c, n) < 0x80 {
          break;
        }
        if n >= 7 {
          n := n + 1;
          iKey := iKey * 256 + At(c, n);
          break;
        }
      }
    }
    n := n + 1;
  }

  /** btreeParseCellPtr, btreeParseCellPtrIndex and btreeParseCellPtrNoPayload. */
  method ParseCell(usable: nat, k: Kind, c: seq<byte>) returns (info: Info)
    requires PageSizeOk(usable)
    ensures info == Parse(usable, k, c) && info.nSize < 65536
  {
    LocalBounds(usable, k);
    if k.TableInterior? {
      var nKey, n := ReadKey(Drop(c, 4));
      return Info(nKey, 0, 4 + n, 0, 4 + n);
    }
    var nPayload, n1 := ReadSize(Drop(c, ChildSize(k)));
    var pIter, nKey := ChildSize(k) + n1, nPayload;
    if k.TableLeaf? {
      var iKey, n2 := ReadKey(Drop(c, pIter));
      pIter, nKey := pIter + n2, iKey;
    }
    if nPayload <= MaxLocal(usable, k) {
      var nSize := nPayload + pIter;
      if nSize < 4 {
        nSize := 4;
      }
      info := Info(nKey, nPayload, pIter, nPayload, nSize);
    } else {
      var minLocal := MinLocal(usable);
      var surplus := minLocal + (nPayload - minLocal) % (usable - 4);
      var nLocal := if surplus <= MaxLocal(usable, k) then surplus else minLocal;
      info := Info(nKey, nPayload, pIter, nLocal, nLocal + pIter + 4);
    }
  }

  /** The loop that steps over a key. */
  method SkipKey(c: seq<byte>) returns (n: nat)
    ensures n == VarLen(c)
  {
    n := 1;
    while At(c, n - 1) >= 128 && n < 9
      invariant 1 <= n <= 9 && VarLen(c) == LenFrom(c, n - 1)
      decreases 9 - n
    {
      n := n + 1;
    }
  }

  /** cellSizePtr and cellSizePtrNoPayload: the size that the full parse finds. */
  method CellSizePtr(usable: nat, k: Kind, c: seq<byte>) returns (nSize: nat)
    requires PageSizeOk(usable)
    ensures nSize == Parse(usable, k, c).nSize
  {
    LocalBounds(usable, k);
    if k.TableInterior? {
      var n := SkipKey(Drop(c, 4));
      return 4 + n;
    }
    var n1;
    nSize, n1 := ReadSize(Drop(c, ChildSize(k)));
    var pIter := ChildSize(k) + n1;
    if k.TableLeaf? {
      var n2 := SkipKey(Drop(c, pIter));
      pIter := pIter + n2;
    }
    if nSize <= MaxLocal(usable, k) {
      nSize := nSize + pIter;
      if nSize < 4 {
        nSize := 4;
      }
    } else {
      var minLocal := MinLocal(usable);
      nSize := minLocal + (nSize - minLocal) % (usable - 4);
      if nSize > MaxLocal(usable, k) {
        nSize := minLocal;
      }
      nSize := nSize + 4 + pIter;
    }
  }

  // ----- what page and packing rely on

  lemma VarLocal(s: seq<byte>, t: seq<byte>)
    requires VarLen(s) <= |s| && VarLen(s) <= |t| && t[..VarLen(s)] == s[..VarLen(s)]
    ensures VarLen(t) == VarLen(s) && GetSize(t) == GetSize(s)
  {
    var n := VarLen(s);
    forall i | 0 <= i < n ensures t[i] == s[i] {
      assert t[i] == t[..n][i] && s[i] == s[..n][i];
    }
    LenLocal(s, t, 0);
    BitsLocal(s, t, n);
  }

  /** Two cells with the same first n bytes have the same integers in them. */
  lemma VarLocalAt(s: seq<byte>, t: seq<byte>, at: nat, n: nat)
    requires n <= |s| && n <= |t| && t[..n] == s[..n] && at + VarLen(Drop(s, at)) <= n
    ensures VarLen(Drop(t, at)) == VarLen(Drop(s, at)) && GetSize(Drop(t, at)) == GetSize(Drop(s, at))
  {
    var l := VarLen(Drop(s, at));
    assert Drop(s, at)[..l] == s[..n][at..at + l] && Drop(t, at)[..l] == t[..n][at..at + l];
    VarLocal(Drop(s, at), Drop(t, at));
  }

  function SizeOfCell(usable: nat, k: Kind, c: seq<byte>): nat {
    if PageSizeOk(usable) then Parse(usable, k, c).nSize else 0
  }

  /** The page's cell size function. */
  function CellSize(usable: nat, k: Kind): seq<byte> -> nat {
    c => SizeOfCell(usable, k, c)
  }

  /** The size of a cell depends on the bytes of that cell only. */
  lemma SizeIsLocal(usable: nat, k: Kind)
    requires PageSizeOk(usable)
    ensures PageImage.LocalSize(CellSize(usable, k))
  {
    forall s: seq<byte>, t: seq<byte> ensures PageImage.LocalAt(CellSize(usable, k), s, t) {
      LocalOne(usable, k, s, t);
    }
  }

  lemma LocalOne(usable: nat, k: Kind, s: seq<byte>, t: seq<byte>)
    requires PageSizeOk(usable)
    ensures PageImage.LocalAt(CellSize(usable, k), s, t)
  {
    var f := CellSize(usable, k);
    SizeLocal(usable, k, s, t);
    LocalBy(f, s, t, SizeOfCell(usable, k, s), SizeOfCell(usable, k, t));
  }

  lemma LocalBy(f: seq<byte> -> nat, s: seq<byte>, t: seq<byte>, n: nat, m: nat)
    requires f(s) == n && f(t) == m && (n <= |s| && n <= |t| && s[..n] == t[..n] ==> m == n)
    ensures PageImage.LocalAt(f, s, t)
  {
  }

  lemma SizeLocal(usable: nat, k: Kind, s: seq<byte>, t: seq<byte>)
    requires PageSizeOk(usable)
    ensures var n := SizeOfCell(usable, k, s);
      n <= |s| && n <= |t| && s[..n] == t[..n] ==> SizeOfCell(usable, k, t) == n
  {
    var n := SizeOfCell(usable, k, s);
    if n <= |s| && n <= |t| && s[..n] == t[..n] {
      SameSize(usable, k, s, t, n);
    }
  }

  lemma SameSize(usable: nat, k: Kind, s: seq<byte>, t: seq<byte>, n: nat)
    requires PageSizeOk(usable) && n == Parse(usable, k, s).nSize && n <= |s| && n <= |t| && s[..n] == t[..n]
    ensures Parse(usable, k, t).nSize == n
  {
    HeaderFits(usable, k, s);
    SameIntegers(k, s, t, n);
    SizeFrom(usable, k, s, t);
  }

  /** The integers of the header that the size depends on are the same. */
  ghost predicate SameHeader(k: Kind, s: seq<byte>, t: seq<byte>) {
    var c := ChildSize(k);
    var h := c + VarLen(Drop(s, c));
    && VarLen(Drop(t, c)) == VarLen(Drop(s, c)) && GetSize(Drop(t, c)) == GetSize(Drop(s, c))
    && (k.TableLeaf? ==> VarLen(Drop(t, h)) == VarLen(Drop(s, h)))
  }

  lemma SameIntegers(k: Kind, s: seq<byte>, t: seq<byte>, n: nat)
    requires n <= |s| && n <= |t| && t[..n] == s[..n]
    requires var c := ChildSize(k); var h := c + VarLen(Drop(s, c));
      h + (if k.TableLeaf? then VarLen(Drop(s, h)) else 0) <= n
    ensures SameHeader(k, s, t)
  {
    var c := ChildSize(k);
    VarLocalAt(s, t, c, n);
    if k.TableLeaf? {
      VarLocalAt(s, t, c + VarLen(Drop(s, c)), n);
    }
  }

  lemma SizeFrom(usable: nat, k: Kind, s: seq<byte>, t: seq<byte>)
    requires PageSizeOk(usable) && SameHeader(k, s, t)
    ensures Parse(usable, k, t).nSize == Parse(usable, k, s).nSize
  {
  }

  lemma HeaderFits(usable: nat, k: Kind, s: seq<byte>)
    requires PageSizeOk(usable)
    ensures var c := ChildSize(k); var h := c + VarLen(Drop(s, c));
      h + (if k.TableLeaf? then VarLen(Drop(s, h)) else 0) == Parse(usable, k, s).nHeader <= Parse(usable, k, s).nSize
  {
  }

  /** Any cell fits on an empty page, and any two cells of an index do. */
  lemma CellsFit(usable: nat, k: Kind, c: seq<byte>, c': seq<byte>)
    requires PageSizeOk(usable)
    ensures 4 <= Parse(usable, k, c).nSize && 2 + Parse(usable, k, c).nSize <= usable - 8 - ChildSize(k)
    ensures !k.TableLeaf? ==>
      (2 + Parse(usable, k, c).nSize) + (2 + Parse(usable, k, c').nSize) <= usable - 8 - ChildSize(k)
  {
    LocalBounds(usable, k);
  }

  /** The sizes of any cells of one kind are as the packing of siblings needs them; `room` is
      the space of a page for cells and their pointers. */
  lemma PackingFits(usable: nat, k: Kind, cells: seq<seq<byte>>, s: seq<nat>, room: nat)
    requires PageSizeOk(usable) && room == usable - 8 - ChildSize(k)
    requires |s| == |cells| && forall i :: 0 <= i < |s| ==> s[i] == SizeOfCell(usable, k, cells[i])
    ensures Packing.Fits(s, room) && (!k.TableLeaf? ==> Packing.PairsFit(s, room))
  {
    forall i, j | 0 <= i < |s| && 0 <= j < |s|
      ensures 2 + s[i] <= room && (!k.TableLeaf? ==> (2 + s[i]) + (2 + s[j]) <= room)
    {
      CellsFit(usable, k, cells[i], cells[j]);
    }
    forall i | 0 <= i < |s| ensures 2 + s[i] <= room {
      CellsFit(usable, k, cells[i], cells[i]);
    }
  }
}
