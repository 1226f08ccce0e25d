/** Online backup: pages are copied a few at a time while the source may change, between
    databases whose page sizes may differ.

    Both databases are byte strings; page i of a database with page size sz is the bytes from
    (i - 1) * sz on.  `pb` is the offset of the pending byte: the page that holds it is used by
    neither database. */
module BackupModel {
  import opened Bytes
  import Arithmetic

  // ----- arithmetic of pages

  /** Page sizes of which one is a multiple of the other, and pages that start at pb. */
  ghost predicate Sizes(ps: nat, pd: nat, pb: nat) {
    && 512 <= ps && 512 <= pd && 0 < pb && pb % ps == 0 && pb % pd == 0
    && (if ps < pd then pd % ps == 0 else ps % pd == 0)
  }

  /** Which offsets are on the page at pb. */
  lemma OnPage(o: nat, sz: nat, pb: nat)
    requires 0 < sz && pb % sz == 0
    ensures o / sz == pb / sz <==> pb <= o < pb + sz
  {
    var q := pb / sz;
    assert pb == q * sz;
    if pb <= o < pb + sz {
      Arithmetic.Euclid(o, sz, q, o - pb);
    }
  }

  lemma Multiply(a: int, b: int, m: nat)
    requires a <= b
    ensures a * m <= b * m
  {
  }

  /** Multiples of m below another multiple of m are at least m below it. */
  lemma Below(a: int, b: int, m: nat)
    requires 0 < m && a * m < b * m
    ensures a * m + m <= b * m
  {
    if b <= a {
      Multiply(b, a, m);
    } else {
      Multiply(a + 1, b, m);
    }
  }

  lemma Factor(q: int, r: int, m: nat)
    ensures q * (r * m) == (q * r) * m && q * (r * m) + r * m == (q * r + r) * m
  {
  }

  /** big pages, each of r small ones: where the one after page q begins. */
  lemma NextBig(o: nat, k: nat, q: nat, r: nat, small: nat, big: nat)
    requires 0 < small && big == r * small && o == k * small && o < q * big + big
    ensures o + small <= q * big + big
  {
    Factor(q, r, small);
    Below(k, q * r + r, small);
  }

  /** o and the start of o's page of size big are multiples of small, so small bytes from o on
      are on that page. */
  lemma OnePage(o: nat, t: nat, small: nat, big: nat)
    requires 0 < small && 0 < big && big % small == 0 && o % small == 0 && t < small
    ensures (o + t) / big == o / big && o % big + small <= big
  {
    NextBig(o, o / small, o / big, big / small, small, big);
    Arithmetic.Euclid(o + t, big, o / big, o % big + t);
  }

  lemma Aligned(o: nat, lo: nat, ps: nat, pd: nat)
    requires 0 < pd <= ps && ps % pd == 0 && o % pd == 0 && lo % ps == 0 && lo <= o < lo + ps
    ensures o + pd <= lo + ps
  {
    NextBig(o, o / pd, lo / ps, ps / pd, pd, ps);
  }

  lemma Offset(o: nat, lo: nat, ps: nat)
    requires 0 < ps && lo % ps == 0 && lo <= o < lo + ps
    ensures o % ps == o - lo
  {
    Arithmetic.Euclid(o, ps, lo / ps, o - lo);
  }

  lemma NextChunk(o: nat, pd: nat)
    requires 0 < pd && o % pd == 0
    ensures (o + pd) % pd == 0
  {
    Arithmetic.Euclid(o + pd, pd, o / pd + 1, 0);
  }

  lemma PageStart(i: nat, ps: nat)
    requires 0 < i && 0 < ps
    ensures i * ps - ps == (i - 1) * ps >= 0 && ((i - 1) * ps) % ps == 0
  {
    Multiply(0, i - 1, ps);
    Arithmetic.Euclid((i - 1) * ps, ps, i - 1, 0);
  }

  /** A page starts on a smaller page, too. */
  lemma StartsToo(lo: nat, ps: nat, pd: nat)
    requires 0 < pd <= ps && ps % pd == 0 && lo % ps == 0
    ensures lo % pd == 0
  {
    var r, q := ps / pd, lo / ps;
    Factor(q, r, pd);
    Arithmetic.Euclid(lo, pd, q * r, 0);
  }

  // ----- one page

  /** z written at offset o of the destination, on page iDest: a page beyond the end comes into
      being with zeros. */
  function WriteDest(dest: seq<byte>, end: nat, o: nat, z: seq<byte>): (r: seq<byte>)
    requires o + |z| <= end
    ensures |r| >= |dest| && |r| >= end
    ensures forall y {:trigger r[y]} :: 0 <= y < |r| ==>
      r[y] == if o <= y < o + |z| then z[y - o] else if y < |dest| then dest[y] else 0
  {
    var size := if |dest| < end then end else |dest|;
    seq(size, y requires 0 <= y < size => if o <= y < o + |z| then z[y - o] else if y < |dest| then dest[y] else 0)
  }

  /** Byte o has been copied from the page that starts at lo; the page count in the header may
      differ. */
  ghost predicate ByteAt(dest: seq<byte>, z: seq<byte>, lo: nat, bUpdate: bool, o: nat)
    requires lo <= o < lo + |z|
  {
    o < |dest| && (dest[o] == z[o - lo] || (28 <= o < 32 && !bUpdate))
  }

  /** The bytes of the page that starts at lo have been copied, up to offset `to`; the
      destination's pending-byte page and all other bytes are as they were. */
  ghost predicate Copying(pd: nat, pb: nat, dest0: seq<byte>, dest: seq<byte>, lo: nat, z: seq<byte>, bUpdate: bool,
                          to: nat) {
    && |dest| >= |dest0|
    && (forall o :: lo <= o < lo + |z| && o < to && !(pb <= o < pb + pd) ==> ByteAt(dest, z, lo, bUpdate, o))
    && (forall o :: 0 <= o < |dest0| && (pb <= o < pb + pd || !(lo <= o < lo + |z| && o < to)) ==> dest[o] == dest0[o])
  }

  /** The stretch copied in one round of the loop. */
  lemma Chunk(ps: nat, pd: nat, pb: nat, lo: nat, iOff: nat, n: nat)
    requires Sizes(ps, pd, pb) && lo % ps == 0 && n == (if ps < pd then ps else pd)
    requires lo <= iOff < lo + ps && if ps < pd then iOff == lo else iOff % pd == 0
    ensures iOff % ps == iOff - lo && iOff + n <= lo + ps && iOff % pd + n <= pd
    ensures if iOff / pd == pb / pd then pb <= iOff && iOff + n <= pb + pd else iOff + n <= pb || pb + pd <= iOff
    ensures ps >= pd ==> (iOff + pd) % pd == 0
  {
    Offset(iOff, lo, ps);
    OnPage(iOff, pd, pb);
    if ps < pd {
      OnePage(iOff, ps - 1, ps, pd);
      OnPage(iOff + ps - 1, pd, pb);
    } else {
      NextChunk(iOff, pd);
      Aligned(iOff, lo, ps, pd);
      OnPage(iOff + pd - 1, pd, pb);
      OnePage(iOff, pd - 1, pd, pd);
    }
  }

  /** The destination page of an offset, and the place on it, put together again. */
  method Place(iOff: nat, pd: nat) returns (end: nat, start: nat)
    requires 0 < pd
    ensures start == iOff && end == iOff - iOff % pd + pd
  {
    var iDest := iOff / pd + 1;
    end := iDest * pd;
    start := (iDest - 1) * pd + iOff % pd;
  }

  /** One stretch of the page, written to a destination page that ends at `end`. */
  method CopyChunk(ghost pd: nat, ghost pb: nat, ghost dest0: seq<byte>, dest: seq<byte>, ghost lo: nat, z: seq<byte>,
                   bUpdate: bool, iOff: nat, n: nat, at: nat, end: nat, nSrcPage: nat)
    returns (dest': seq<byte>)
    requires iOff == lo + at && at + n <= |z| && iOff + n <= end && 32 <= n && (iOff + n <= pb || pb + pd <= iOff)
    requires Copying(pd, pb, dest0, dest, lo, z, bUpdate, iOff)
    ensures Copying(pd, pb, dest0, dest', lo, z, bUpdate, iOff + n)
    ensures iOff == 0 && !bUpdate ==> Counted(dest', nSrcPage)
    ensures |dest| <= |dest'| && forall o :: 0 <= o < |dest| && o < iOff ==> dest'[o] == dest[o]
  {
    dest' := WriteDest(dest, end, iOff, z[at..at + n]);
    if iOff == 0 && !bUpdate {
      if nSrcPage < 0x1_0000_0000 {
        GetPut4(dest', 28, nSrcPage);
      }
      dest' := Put4(dest', 28, nSrcPage);
    }
    forall o | lo <= o < lo + |z| && o < iOff + n && !(pb <= o < pb + pd) ensures ByteAt(dest', z, lo, bUpdate, o) {
      assert o < iOff ==> ByteAt(dest, z, lo, bUpdate, o);
    }
  }

  /** What lies between the stretch copied and the next: nothing of this page, or the
      pending-byte page. */
  lemma CopyingOn(pd: nat, pb: nat, dest0: seq<byte>, dest: seq<byte>, lo: nat, z: seq<byte>, bUpdate: bool, iOff: nat,
                  n: nat)
    requires n <= pd && (n < pd ==> lo + |z| <= iOff + n)
    requires Copying(pd, pb, dest0, dest, lo, z, bUpdate, iOff + n) ||
      (Copying(pd, pb, dest0, dest, lo, z, bUpdate, iOff) && pb <= iOff && iOff + n <= pb + pd)
    ensures Copying(pd, pb, dest0, dest, lo, z, bUpdate, iOff + pd)
  {
    forall o | lo <= o < lo + |z| && o < iOff + pd && !(pb <= o < pb + pd) ensures ByteAt(dest, z, lo, bUpdate, o) {
      assert o < iOff + n;
    }
  }

  /** The header says how many pages there are. */
  ghost predicate Counted(dest: seq<byte>, n: nat) {
    |dest| >= 32 && (n < 0x1_0000_0000 ==> Get4(dest, 28) == n)
  }

  /** One round of the loop of backupOnePage, for a destination page that ends at `end`, or is the
      pending-byte page. */
  method CopyRound(ghost pd: nat, ghost pb: nat, ghost dest0: seq<byte>, dest: seq<byte>, ghost lo: nat, z: seq<byte>,
                   bUpdate: bool, iOff: nat, nCopy: nat, at: nat, end: nat, skip: bool, nSrcPage: nat)
    returns (dest': seq<byte>)
    requires iOff == lo + at && at + nCopy <= |z| && iOff + nCopy <= end && 32 <= nCopy && 0 < pb
    requires if skip then pb <= iOff && iOff + nCopy <= pb + pd else iOff + nCopy <= pb || pb + pd <= iOff
    requires nCopy <= pd && (nCopy < pd ==> lo + |z| <= iOff + nCopy)
    requires Copying(pd, pb, dest0, dest, lo, z, bUpdate, iOff)
    ensures Copying(pd, pb, dest0, dest', lo, z, bUpdate, iOff + pd)
    ensures iOff == 0 && !bUpdate ==> Counted(dest', nSrcPage)
    ensures |dest| <= |dest'| && forall o :: 0 <= o < |dest| && o < iOff ==> dest'[o] == dest[o]
  {
    dest' := dest;
    if !skip {
      dest' := CopyChunk(pd, pb, dest0, dest, lo, z, bUpdate, iOff, nCopy, at, end, nSrcPage);
    }
    CopyingOn(pd, pb, dest0, dest', lo, z, bUpdate, iOff, nCopy);
  }

  lemma PendingBeyond(pb: nat, pd: nat)
    requires 0 < pd && 0 < pb && pb % pd == 0
    ensures pd <= pb && 1 <= pb / pd
  {
    assert pb == pb / pd * pd;
    Below(0, pb / pd, pd);
  }

  /** Where the stretch at iOff is on its source page, where its destination page ends, and whether
      that is the pending-byte page. */
  method Where(ps: nat, pd: nat, pb: nat, ghost lo: nat, iOff: nat, n: nat)
    returns (at: nat, start: nat, end: nat, skip: bool)
    requires Sizes(ps, pd, pb) && lo % ps == 0 && n == (if ps < pd then ps else pd)
    requires lo <= iOff < lo + ps && if ps < pd then iOff == lo else iOff % pd == 0
    ensures start == iOff && at == iOff - lo && at + n <= ps && iOff + n <= end && n <= pd
    ensures if skip then pb <= iOff && iOff + n <= pb + pd else iOff + n <= pb || pb + pd <= iOff
    ensures ps >= pd ==> (iOff + pd) % pd == 0
  {
    Chunk(ps, pd, pb, lo, iOff, n);
    end, start := Place(iOff, pd);
    at, skip := iOff % ps, iOff / pd == pb / pd;
  }

  lemma StillCounted(dest: seq<byte>, dest': seq<byte>, n: nat, iOff: nat)
    requires Counted(dest, n) && 32 <= iOff && |dest| <= |dest'|
    requires forall o :: 0 <= o < |dest| && o < iOff ==> dest'[o] == dest[o]
    ensures Counted(dest', n)
  {
  }

  /** backupOnePage. */
  method BackupOnePage(ps: nat, pd: nat, pb: nat, dest0: seq<byte>, iSrcPg: nat, z: seq<byte>, bUpdate: bool,
                       nSrcPage: nat)
    returns (dest: seq<byte>)
    requires Sizes(ps, pd, pb) && 0 < iSrcPg && |z| == ps
    ensures Copying(pd, pb, dest0, dest, (iSrcPg - 1) * ps, z, bUpdate, (iSrcPg - 1) * ps + ps)
    ensures iSrcPg == 1 && !bUpdate ==> Counted(dest, nSrcPage)
  {
    var iEnd := iSrcPg * ps;
    PageStart(iSrcPg, ps);
    ghost var lo := iEnd - ps;
    if ps >= pd {
      StartsToo(lo, ps, pd);
    }
    dest := CopyAll(ps, pd, pb, dest0, lo, iEnd, z, bUpdate, nSrcPage);
  }

  /** The loop of backupOnePage. */
  method CopyAll(ps: nat, pd: nat, pb: nat, dest0: seq<byte>, ghost lo: nat, iEnd: nat, z: seq<byte>, bUpdate: bool,
                 nSrcPage: nat)
    returns (dest: seq<byte>)
    requires Sizes(ps, pd, pb) && iEnd == lo + ps && |z| == ps && lo % ps == 0 && (ps >= pd ==> lo % pd == 0)
    ensures Copying(pd, pb, dest0, dest, lo, z, bUpdate, lo + ps)
    ensures lo == 0 && !bUpdate ==> Counted(dest, nSrcPage)
  {
    dest := dest0;
    var nCopy := if ps < pd then ps else pd;
    var iOff := iEnd - ps;
    while iOff < iEnd
      invariant iOff == lo || iOff >= lo + pd
      invariant if ps < pd then iOff == lo || iOff >= iEnd else iOff % pd == 0
      invariant Copying(pd, pb, dest0, dest, lo, z, bUpdate, iOff)
      invariant lo == 0 && iOff > 0 && !bUpdate ==> Counted(dest, nSrcPage)
      decreases iEnd - iOff
    {
      var at, start, end, skip := Where(ps, pd, pb, lo, iOff, nCopy);
      ghost var was := dest;
      dest := CopyRound(pd, pb, dest0, dest, lo, z, bUpdate, start, nCopy, at, end, skip, nSrcPage);
      if lo == 0 && iOff > 0 && !bUpdate {
        StillCounted(was, dest, nSrcPage, iOff);
      }
      iOff := iOff + pd;
    }
  }

  // ----- the whole database

  /** The byte belongs to the pending-byte page of a database with page size sz. */
  predicate Pending(o: int, pb: nat, sz: nat) {
    pb <= o < pb + sz
  }

  /** Header fields the destination has values of its own for: change counter, size, schema
      cookie, and the copies the pager keeps. */
  predicate Stamped(o: int) {
    24 <= o < 32 || 40 <= o < 44 || 92 <= o < 100
  }

  ghost predicate SameByte(src: seq<byte>, dest: seq<byte>, o: nat)
    requires o < |src|
  {
    o < |dest| && (dest[o] == src[o] || Stamped(o))
  }

  /** The destination agrees with the source up to offset `to`, pending-byte pages aside. */
  ghost predicate Agrees(ps: nat, pd: nat, pb: nat, src: seq<byte>, dest: seq<byte>, to: nat) {
    forall o :: 0 <= o < |src| && o < to && !Pending(o, pb, ps) && !Pending(o, pb, pd) ==> SameByte(src, dest, o)
  }

  ghost predicate SameAt(a: seq<byte>, b: seq<byte>, o: int) {
    0 <= o < |a| && o < |b| && b[o] == a[o]
  }

  lemma AgreesOn(ps: nat, pd: nat, pb: nat, src: seq<byte>, src': seq<byte>, dest: seq<byte>, dest': seq<byte>, to: nat,
                 to': nat, lo: nat, z: seq<byte>, bUpdate: bool)
    requires Agrees(ps, pd, pb, src, dest, to) && lo + |z| <= |src'| && src'[lo..lo + |z|] == z
    requires Copying(pd, pb, dest, dest', lo, z, bUpdate, lo + |z|)
    requires forall o :: 0 <= o < |src'| && o < to' && !(lo <= o < lo + |z|) ==> o < to && SameAt(src, src', o)
    ensures Agrees(ps, pd, pb, src', dest', to')
  {
    forall o | 0 <= o < |src'| && o < to' && !Pending(o, pb, ps) && !Pending(o, pb, pd)
      ensures SameByte(src', dest', o)
    {
      if lo <= o < lo + |z| {
        assert ByteAt(dest', z, lo, bUpdate, o);
        assert src'[o] == src'[lo..lo + |z|][o - lo];
      } else {
        assert SameAt(src, src', o);
        assert SameByte(src, dest, o);
      }
    }
  }

  datatype Status = Ok | Busy | ReadOnly | Done

  /** No step does anything any more. */
  predicate Fatal(rc: Status) {
    rc.ReadOnly? || rc.Done?
  }

  /** Header fields of the destination's own; in WAL mode the file format versions, too. */
  predicate Own(o: int, wal: bool) {
    Stamped(o) || (wal && 18 <= o < 20)
  }

  /** The file format versions say WAL. */
  predicate SaysWal(dest: seq<byte>) {
    |dest| >= 20 && dest[18] == 2 && dest[19] == 2
  }

  ghost predicate KeptByte(src: seq<byte>, dest: seq<byte>, wal: bool, o: nat)
    requires o < |src|
  {
    o < |dest| && (dest[o] == src[o] || Own(o, wal))
  }

  /** All is copied and the header fields are written, pending-byte pages aside. */
  ghost predicate Headed(ps: nat, pd: nat, pb: nat, wal: bool, src: seq<byte>, dest: seq<byte>) {
    && (wal ==> SaysWal(dest))
    && forall o :: 0 <= o < |src| && !Pending(o, pb, ps) && !Pending(o, pb, pd) ==> KeptByte(src, dest, wal, o)
  }

  /** The destination is a copy of the source. */
  ghost predicate Complete(ps: nat, pb: nat, wal: bool, src: seq<byte>, dest: seq<byte>) {
    && |dest| == |src| && (wal ==> SaysWal(dest))
    && forall o :: 0 <= o < |src| && !Pending(o, pb, ps) && !Own(o, wal) ==> dest[o] == src[o]
  }

  /** The schema cookie, sqlite3BtreeSetVersion in WAL mode, and what the pager writes into the
      header on commit. */
  function Stamp(dest: seq<byte>, wal: bool, cookie: u32, change: u32, version: u32): (r: seq<byte>)
    requires |dest| >= 100
    ensures |r| == |dest| && forall o :: 0 <= o < |dest| && !Own(o, wal) ==> r[o] == dest[o]
    ensures wal ==> SaysWal(r)
  {
    var d := Put4(dest, 40, cookie);
    var v := if wal then d[18 := 2][19 := 2] else d;
    Put4(Put4(Put4(v, 24, change), 92, change), 96, version)
  }

  /** The header fields are those of the destination: schema cookie, change counter, and the counter
      and version of the library that wrote it. */
  ghost predicate Fields(dest: seq<byte>, cookie: u32, change: u32, version: u32) {
    && |dest| >= 100 && Get4(dest, 40) == cookie
    && Get4(dest, 24) == change && Get4(dest, 92) == change && Get4(dest, 96) == version
  }

  lemma StampFields(dest: seq<byte>, wal: bool, cookie: u32, change: u32, version: u32)
    requires |dest| >= 100
    ensures Fields(Stamp(dest, wal, cookie, change, version), cookie, change, version)
  {
    var d := Put4(dest, 40, cookie);
    GetPut4(dest, 40, cookie);
    var v := if wal then d[18 := 2][19 := 2] else d;
    assert Get4(v, 40) == cookie;
    var v1 := Put4(v, 24, change);
    GetPut4(v, 24, change);
    assert Get4(v1, 40) == cookie;
    var v2 := Put4(v1, 92, change);
    GetPut4(v1, 92, change);
    assert Get4(v2, 24) == change && Get4(v2, 40) == cookie;
    GetPut4(v2, 96, version);
  }

  function Truncated(d: seq<byte>, n: nat): (r: seq<byte>)
    ensures |r| == if |d| < n then |d| else n
    ensures forall o :: 0 <= o < |r| ==> r[o] == d[o]
  {
    if |d| > n then d[..n] else d
  }

  lemma WholePages(o: nat, end: nat, ps: nat)
    requires 0 < ps && o % ps == 0 && end % ps == 0 && o < end
    ensures o + ps <= end && (o + ps) % ps == 0 && o / ps * ps == o
  {
    Below(o / ps, end / ps, ps);
    NextChunk(o, ps);
  }

  lemma MultipleToo(pb: nat, ps: nat, pd: nat)
    requires 0 < ps && pb % ps == 0 && pd % ps == 0
    ensures (pb + pd) % ps == 0 && (pb + ps) % ps == 0
  {
    Arithmetic.Euclid(pb + pd, ps, pb / ps + pd / ps, 0);
    NextChunk(pb, ps);
  }

  /** Source pages that share the destination's pending-byte page are written straight to the
      file. */
  method ExtraPages(ps: nat, pd: nat, pb: nat, src: seq<byte>, dest0: seq<byte>) returns (dest: seq<byte>)
    requires Sizes(ps, pd, pb) && ps < pd && |src| % ps == 0
    ensures |dest| >= |dest0| && forall o :: pb + ps <= o < pb + pd && o < |src| ==> SameAt(src, dest, o)
    ensures forall o :: 0 <= o < |dest0| && !(pb + ps <= o < pb + pd) ==> dest[o] == dest0[o]
  {
    dest := dest0;
    MultipleToo(pb, ps, pd);
    var iEnd := if pb + pd < |src| then pb + pd else |src|;
    var iOff := pb + ps;
    while iOff < iEnd
      invariant pb + ps <= iOff && iOff % ps == 0 && |dest| >= |dest0|
      invariant forall o :: pb + ps <= o < pb + pd && o < |src| && o < iOff ==> SameAt(src, dest, o)
      invariant forall o :: 0 <= o < |dest0| && !(pb + ps <= o < pb + pd) ==> dest[o] == dest0[o]
    {
      WholePages(iOff, iEnd, ps);
      var iSrcPg := iOff / ps + 1;
      var lo := (iSrcPg - 1) * ps;
      dest := OnePageMore(ps, pd, pb, src, dest, lo);
      iOff := iOff + ps;
    }
  }

  method OnePageMore(ps: nat, ghost pd: nat, ghost pb: nat, src: seq<byte>, dest0: seq<byte>, lo: nat)
    returns (dest: seq<byte>)
    requires lo + ps <= |src| && pb + ps <= lo && lo + ps <= pb + pd
    requires forall o :: pb + ps <= o < pb + pd && o < |src| && o < lo ==> SameAt(src, dest0, o)
    ensures |dest| >= |dest0| && forall o :: 0 <= o < |dest0| && !(pb + ps <= o < pb + pd) ==> dest[o] == dest0[o]
    ensures forall o :: pb + ps <= o < pb + pd && o < |src| && o < lo + ps ==> SameAt(src, dest, o)
  {
    dest := WriteDest(dest0, lo + ps, lo, src[lo..lo + ps]);
    forall o | pb + ps <= o < pb + pd && o < |src| && o < lo + ps ensures SameAt(src, dest, o) {
      assert o < lo ==> SameAt(src, dest0, o);
    }
  }

  /** The size the destination gets, in pages, and in bytes. */
  method Conclude(ps: nat, pd: nat, pb: nat, wal: bool, src: seq<byte>, nSrc: nat, dest0: seq<byte>,
                  cookie: u32, change: u32, version: u32)
    returns (dest: seq<byte>)
    requires Sizes(ps, pd, pb) && 0 < nSrc && |src| == nSrc * ps && nSrc != pb / ps + 1
    requires Agrees(ps, pd, pb, src, dest0, |src|)
    ensures Complete(ps, pb, wal, src, dest) && Fields(dest, cookie, change, version)
  {
    FirstPage(ps, pd, pb, src, nSrc);
    assert SameByte(src, dest0, 511);
    dest := Stamp(dest0, wal, cookie, change, version);
    StampAgrees(ps, pd, pb, wal, src, dest0, dest);
    StampFields(dest0, wal, cookie, change, version);
    if ps < pd {
      dest := ConcludeLarger(ps, pd, pb, wal, src, nSrc, dest);
    } else {
      var nDestTruncate := nSrc * (ps / pd);
      SameSize(nSrc, ps, pd);
      LastCopied(ps, pd, pb, wal, src, nSrc, dest);
      dest := Truncated(dest, nDestTruncate * pd);
      AllSame(ps, pd, pb, wal, src, dest);
    }
  }

  method ConcludeLarger(ps: nat, pd: nat, pb: nat, ghost wal: bool, src: seq<byte>, nSrc: nat, dest0: seq<byte>)
    returns (dest: seq<byte>)
    requires Sizes(ps, pd, pb) && 0 < nSrc && |src| == nSrc * ps && nSrc != pb / ps + 1 && ps < pd
    requires Headed(ps, pd, pb, wal, src, dest0) && 512 <= |src| && 512 <= pb && 512 <= |dest0|
    ensures Complete(ps, pb, wal, src, dest) && forall o :: 0 <= o < 100 ==> dest[o] == dest0[o]
  {
    Arithmetic.Euclid(|src|, ps, nSrc, 0);
    var d := ExtraPages(ps, pd, pb, src, dest0);
    LastPageFull(ps, pd, pb, wal, src, nSrc, dest0, d);
    dest := Truncated(d, |src|);
    forall o | 0 <= o < |src| && !Pending(o, pb, ps) && !Own(o, wal) ensures dest[o] == src[o] {
      if Pending(o, pb, pd) {
        assert SameAt(src, d, o);
      } else {
        assert KeptByte(src, dest0, wal, o);
      }
    }
  }

  class Backup {
    const ps: nat
    const pd: nat
    const pb: nat
    /** The destination is in WAL mode. */
    const wal: bool
    var src: seq<byte>
    var nSrc: nat
    var dest: seq<byte>
    var iNext: nat
    var isAttached: bool
    var rc: Status

    /** sqlite3_backup_init, for given databases. */
    constructor (ps: nat, pd: nat, pb: nat, wal: bool, src: seq<byte>, nSrc: nat, dest: seq<byte>)
      requires Sizes(ps, pd, pb) && |src| == nSrc * ps
      ensures Valid() && Value() == State(src, nSrc, 1, false, Ok)
      ensures this.ps == ps && this.pd == pd && this.pb == pb && this.wal == wal && this.dest == dest
    {
      this.ps, this.pd, this.pb, this.wal := ps, pd, pb, wal;
      this.src, this.nSrc, this.dest := src, nSrc, dest;
      iNext, isAttached, rc := 1, false, Ok;
    }

    /** All of the backup but the destination. */
    ghost function Value(): State
      reads this
    {
      State(src, nSrc, iNext, isAttached, rc)
    }

    /** Until the backup is at an end, all source pages below iNext are in the destination as
        they are now in the source. */
    ghost predicate Valid()
      reads this
    {
      && Sizes(ps, pd, pb) && |src| == nSrc * ps && 1 <= iNext && (!isAttached ==> iNext == 1 || Fatal(rc))
      && (!Fatal(rc) ==> Agrees(ps, pd, pb, src, dest, (iNext - 1) * ps))
    }

    /** The source writes a page, existing or new, and reports it.  Pages between the end of the
        source and a new page come into being with zeros and are not reported; they must not be
        among those already copied. */
    method SourceWrite(iPage: nat, data: seq<byte>)
      requires Valid() && 1 <= iPage && |data| == ps && iPage != pb / ps + 1
      requires iPage <= nSrc + 1 || iNext <= nSrc + 1 || Fatal(rc)
      modifies this`src, this`nSrc, this`dest
      ensures Valid() && Value() == WriteTo(old(Value()), ps, iPage, data)
      ensures Fatal(rc) || iNext <= iPage ==> dest == old(dest)
    {
      WrittenMeans(src, nSrc, ps, iPage, data, iNext);
      var lo := (iPage - 1) * ps;
      ghost var src0 := src;
      src := WriteDest(src, lo + ps, lo, data);
      if iPage > nSrc {
        nSrc := iPage;
      }
      BackupUpdate(iPage, data, src0);
    }

    /** backupUpdate: what has been copied already is copied again. */
    method BackupUpdate(iPage: nat, data: seq<byte>, ghost src0: seq<byte>)
      requires Sizes(ps, pd, pb) && 1 <= iNext && 1 <= iPage && |data| == ps
      requires !isAttached ==> iNext == 1 || Fatal(rc)
      requires !Fatal(rc) ==> Agrees(ps, pd, pb, src0, dest, (iNext - 1) * ps)
      requires (iPage - 1) * ps >= 0 && (iPage - 1) * ps + ps <= |src|
      requires src[(iPage - 1) * ps..(iPage - 1) * ps + ps] == data
      requires if iPage < iNext then (iPage - 1) * ps + ps <= (iNext - 1) * ps else (iNext - 1) * ps <= (iPage - 1) * ps
      requires !Fatal(rc) ==> ElseSame(src0, src, (iPage - 1) * ps, ps, (iNext - 1) * ps)
      modifies this`dest
      ensures Fatal(rc) || iNext <= iPage ==> dest == old(dest)
      ensures Fatal(rc) || Agrees(ps, pd, pb, src, dest, (iNext - 1) * ps)
    {
      if isAttached && !Fatal(rc) && iPage < iNext {
        ghost var dest0 := dest;
        dest := BackupOnePage(ps, pd, pb, dest, iPage, data, true, 0);
        AgreesOn(ps, pd, pb, src0, src, dest0, dest, (iNext - 1) * ps, (iNext - 1) * ps, (iPage - 1) * ps, data, true);
      } else if !Fatal(rc) {
        AgreesBelow(ps, pd, pb, src0, src, dest, (iNext - 1) * ps);
      }
    }

    /** The source gets smaller. */
    method SourceTruncate(n: nat)
      requires Valid() && n < nSrc
      modifies this`src, this`nSrc
      ensures Valid() && Value() == old(Value()).(src := Truncated(old(src), n * ps), nSrc := n)
    {
      Multiply(n, nSrc, ps);
      src := src[..n * ps];
      nSrc := n;
      if !Fatal(rc) {
        AgreesBelow(ps, pd, pb, old(src), src, dest, (iNext - 1) * ps);
      }
    }

    /** The file grows over the pending-byte page, which is not written. */
    method SourceSkip(unused: seq<byte>)
      requires Valid() && nSrc == pb / ps && |unused| == ps
      modifies this`src, this`nSrc
      ensures Valid() && Value() == old(Value()).(src := old(src) + unused, nSrc := old(nSrc) + 1)
    {
      assert pb == nSrc * ps;
      src := src + unused;
      nSrc := nSrc + 1;
      forall o | 0 <= o < |src| && o < (iNext - 1) * ps && !Pending(o, pb, ps) && !Pending(o, pb, pd) && !Fatal(rc)
        ensures SameByte(src, dest, o)
      {
        assert SameByte(old(src), dest, o);
      }
    }

    /** Another process has changed the source: sqlite3BackupRestart. */
    method Restart(src': seq<byte>, n: nat)
      requires Valid() && |src'| == n * ps
      modifies this`src, this`nSrc, this`iNext
      ensures Valid() && Value() == old(Value()).(src := src', nSrc := n, iNext := 1)
    {
      src, nSrc := src', n;
      iNext := 1;
    }

    /** One round of the copying loop: the next page, unless it is the pending-byte page. */
    method CopyNext()
      requires Sizes(ps, pd, pb) && |src| == nSrc * ps && 1 <= iNext <= nSrc
      requires Agrees(ps, pd, pb, src, dest, (iNext - 1) * ps)
      modifies this`iNext, this`dest
      ensures iNext == old(iNext) + 1 && Agrees(ps, pd, pb, src, dest, (iNext - 1) * ps)
      ensures old(iNext) == 1 ==> Counted(dest, nSrc)
    {
      var iSrcPg := iNext;
      PendingBeyond(pb, ps);
      PageStart(iSrcPg, ps);
      PageEnds(iSrcPg, nSrc, ps);
      var lo := (iSrcPg - 1) * ps;
      assert (iSrcPg + 1 - 1) * ps == lo + ps;
      if iSrcPg != pb / ps + 1 {
        CopyThis(iSrcPg, lo);
      } else {
        SkippedPage(ps, pd, pb, src, dest, lo);
      }
      iNext := iNext + 1;
    }

    method CopyThis(iSrcPg: nat, lo: nat)
      requires Sizes(ps, pd, pb) && 0 < iSrcPg && lo == (iSrcPg - 1) * ps && lo + ps <= |src|
      requires Agrees(ps, pd, pb, src, dest, lo)
      modifies this`dest
      ensures Agrees(ps, pd, pb, src, dest, lo + ps) && (iSrcPg == 1 ==> Counted(dest, nSrc))
    {
      ghost var dest0 := dest;
      dest := BackupOnePage(ps, pd, pb, dest, iSrcPg, src[lo..lo + ps], false, nSrc);
      AgreesOn(ps, pd, pb, src, src, dest0, dest, lo, lo + ps, lo, src[lo..lo + ps], false);
    }

    /** The copying loop of sqlite3_backup_step. */
    method CopyPages(nPage: int)
      requires Valid() && rc == Ok
      modifies this`iNext, this`dest
      ensures nPage >= 0 ==> iNext <= old(iNext) + nPage
      ensures if old(iNext) > nSrc then iNext == old(iNext)
              else iNext == if nPage >= 0 && old(iNext) + nPage <= nSrc then old(iNext) + nPage else nSrc + 1
      ensures iNext == Reached(old(iNext), nSrc, nPage) >= 1 && Agrees(ps, pd, pb, src, dest, (iNext - 1) * ps)
    {
      var ii := 0;
      while (nPage < 0 || ii < nPage) && iNext <= nSrc
        invariant 1 <= iNext == old(iNext) + ii && Agrees(ps, pd, pb, src, dest, (iNext - 1) * ps) && 0 <= ii
        invariant nPage >= 0 ==> ii <= nPage
        invariant ii > 0 ==> iNext <= nSrc + 1
        decreases nSrc + 1 - iNext
      {
        CopyNext();
        ii := ii + 1;
      }
    }

    /** No page is left: header fields, size, and what could not be copied page by page. */
    method Finish(newDb: seq<byte>, cookie: u32, change: u32, version: u32)
      requires Sizes(ps, pd, pb) && |src| == nSrc * ps && nSrc != pb / ps + 1 && |newDb| == pd && nSrc < iNext
      requires Agrees(ps, pd, pb, src, dest, (iNext - 1) * ps)
      modifies this`dest
      ensures Fields(dest, cookie, change, version)
      ensures if nSrc > 0 then Complete(ps, pb, wal, src, dest) else Empty(ps, pd, wal, newDb, dest)
    {
      AllCopied(iNext, nSrc, ps);
      if nSrc > 0 {
        dest := Conclude(ps, pd, pb, wal, src, nSrc, dest, cookie, change, version);
      } else {
        StampFields(WriteDest(dest, pd, 0, newDb), wal, cookie, change, version);
        dest := Truncated(Stamp(WriteDest(dest, pd, 0, newDb), wal, cookie, change, version), ps);
      }
    }

    /** sqlite3_backup_step: `busy` if the source is being written to; `newDb` is the first page
        of an empty database.  When it is done the destination has the size of the source and
        all of its bytes but for header fields of its own and the page never used. */
    method Step(nPage: int, busy: bool, newDb: seq<byte>, cookie: u32, change: u32, version: u32)
      requires Valid() && nSrc != pb / ps + 1 && |newDb| == pd
      modifies this`iNext, this`dest, this`isAttached, this`rc
      ensures Valid() && Value() == Stepped(ps, pd, wal, old(Value()), nPage, busy)
      ensures nPage >= 0 ==> old(iNext) <= iNext <= old(iNext) + nPage
      ensures var runs := (old(rc) == Ok || old(rc) == Busy) && !busy && (!wal || ps == pd);
        if runs then
          && (rc == Ok || rc == Done) && (rc == Ok <==> nPage >= 0 && old(iNext) + nPage <= nSrc)
          && iNext == (if rc == Ok then old(iNext) + nPage else if old(iNext) > nSrc then old(iNext) else nSrc + 1)
          && isAttached == (old(isAttached) || rc == Ok)
        else
          && dest == old(dest) && iNext == old(iNext) && isAttached == old(isAttached)
          && rc == if old(rc) == ReadOnly || old(rc) == Done then old(rc) else if busy then Busy else ReadOnly
      ensures old(rc) != Done && rc == Done ==> Fields(dest, cookie, change, version)
      ensures old(rc) != Done && rc == Done && nSrc > 0 ==> Complete(ps, pb, wal, src, dest)
      ensures old(rc) != Done && rc == Done && nSrc == 0 ==> Empty(ps, pd, wal, newDb, dest)
    {
      if Fatal(rc) {
        return;
      }
      if busy {
        rc := Busy;
        return;
      }
      if wal && ps != pd {
        rc := ReadOnly;
        return;
      }
      rc := Ok;
      CopyPages(nPage);
      if iNext > nSrc {
        Finish(newDb, cookie, change, version);
        rc := Done;
      } else if !isAttached {
        isAttached := true;
      }
    }
  }

  /** Where the copying loop ends. */
  function Reached(iNext: nat, nSrc: nat, nPage: int): (r: nat)
    ensures iNext <= r && (iNext <= nSrc + 1 ==> r <= nSrc + 1)
  {
    if iNext > nSrc then iNext
    else if nPage < 0 || iNext + nPage > nSrc then nSrc + 1
    else iNext + nPage
  }

  /** The new first page of a database without pages. */
  ghost predicate Empty(ps: nat, pd: nat, wal: bool, newDb: seq<byte>, dest: seq<byte>) {
    && |dest| <= ps && (wal ==> SaysWal(dest))
    && forall o :: 0 <= o < |newDb| && o < ps && !Own(o, wal) ==> o < |dest| && dest[o] == newDb[o]
  }

  /** Page iPage of the source written. */
  ghost function Written(src: seq<byte>, ps: nat, iPage: nat, data: seq<byte>): seq<byte>
    requires 1 <= iPage && |data| == ps
  {
    Multiply(0, iPage - 1, ps);
    WriteDest(src, (iPage - 1) * ps + ps, (iPage - 1) * ps, data)
  }

  ghost function WriteTo(s: State, ps: nat, iPage: nat, data: seq<byte>): State
    requires 1 <= iPage && |data| == ps
  {
    s.(src := Written(s.src, ps, iPage, data), nSrc := if iPage > s.nSrc then iPage else s.nSrc)
  }

  /** Up to offset `to` only the ps bytes from lo on may have changed. */
  ghost predicate ElseSame(src: seq<byte>, src': seq<byte>, lo: nat, ps: nat, to: nat) {
    forall o :: 0 <= o < |src'| && o < to && !(lo <= o < lo + ps) ==> SameAt(src, src', o)
  }

  lemma WrittenMeans(src: seq<byte>, nSrc: nat, ps: nat, iPage: nat, data: seq<byte>, iNext: nat)
    requires 1 <= iNext && 1 <= iPage && |src| == nSrc * ps && |data| == ps
    ensures var src', lo, to := Written(src, ps, iPage, data), (iPage - 1) * ps, (iNext - 1) * ps;
      && |src'| == (if iPage > nSrc then iPage else nSrc) * ps
      && 0 <= lo && lo + ps <= |src'| && src'[lo..lo + ps] == data
      && 0 <= to && (if iPage < iNext then lo + ps <= to else to <= lo)
      && (iPage <= nSrc + 1 || iNext <= nSrc + 1 ==> ElseSame(src, src', lo, ps, to))
  {
    Multiply(0, iPage - 1, ps);
    assert iPage * ps == (iPage - 1) * ps + ps;
    PageEnds(iPage, nSrc, ps);
    BeforeNext(iPage, iNext, ps);
    Multiply(0, iNext - 1, ps);
    if iPage > nSrc {
      Multiply(nSrc, iPage, ps);
    }
    if iPage <= nSrc + 1 {
      Multiply(iPage - 1, nSrc, ps);
    } else if iNext <= nSrc + 1 {
      Multiply(iNext - 1, nSrc, ps);
    }
  }

  lemma PageEnds(i: nat, n: nat, ps: nat)
    requires 0 < i
    ensures i <= n ==> (i - 1) * ps + ps <= n * ps
    ensures i == n + 1 ==> (i - 1) * ps == n * ps && i * ps == n * ps + ps
  {
    if i <= n {
      Multiply(i, n, ps);
    }
  }

  lemma BeforeNext(i: nat, next: nat, ps: nat)
    requires 0 < i && 0 < next
    ensures if i < next then (i - 1) * ps + ps <= (next - 1) * ps else (next - 1) * ps <= (i - 1) * ps
  {
    if i < next {
      Multiply(i, next - 1, ps);
    } else {
      Multiply(next - 1, i - 1, ps);
    }
  }

  lemma AgreesBelow(ps: nat, pd: nat, pb: nat, src: seq<byte>, src': seq<byte>, dest: seq<byte>, to: nat)
    requires Agrees(ps, pd, pb, src, dest, to)
    requires forall o :: 0 <= o < |src'| && o < to ==> SameAt(src, src', o)
    ensures Agrees(ps, pd, pb, src', dest, to)
  {
    forall o | 0 <= o < |src'| && o < to && !Pending(o, pb, ps) && !Pending(o, pb, pd) ensures SameByte(src', dest, o) {
      assert SameAt(src, src', o);
      assert SameByte(src, dest, o);
    }
  }

  lemma SkippedPage(ps: nat, pd: nat, pb: nat, src: seq<byte>, dest: seq<byte>, lo: nat)
    requires Agrees(ps, pd, pb, src, dest, lo) && lo == pb
    ensures Agrees(ps, pd, pb, src, dest, lo + ps)
  {
  }

  lemma AllCopied(next: nat, nSrc: nat, ps: nat)
    requires next > nSrc
    ensures nSrc * ps <= (next - 1) * ps
  {
    Multiply(nSrc, next - 1, ps);
  }

  lemma FirstPage(ps: nat, pd: nat, pb: nat, src: seq<byte>, nSrc: nat)
    requires Sizes(ps, pd, pb) && 0 < nSrc && |src| == nSrc * ps
    ensures 512 <= |src| && 512 <= pb
  {
    Multiply(1, nSrc, ps);
    assert pb == pb / ps * ps;
    Below(0, pb / ps, ps);
  }

  lemma StampAgrees(ps: nat, pd: nat, pb: nat, wal: bool, src: seq<byte>, dest: seq<byte>, dest': seq<byte>)
    requires Agrees(ps, pd, pb, src, dest, |src|) && |dest'| == |dest| && (wal ==> SaysWal(dest'))
    requires forall o :: 0 <= o < |dest| && !Own(o, wal) ==> dest'[o] == dest[o]
    ensures Headed(ps, pd, pb, wal, src, dest')
  {
    forall o | 0 <= o < |src| && !Pending(o, pb, ps) && !Pending(o, pb, pd) ensures KeptByte(src, dest', wal, o) {
      assert SameByte(src, dest, o);
    }
  }

  lemma SameSize(nSrc: nat, ps: nat, pd: nat)
    requires 0 < pd && ps % pd == 0
    ensures nSrc * (ps / pd) * pd == nSrc * ps
  {
    Factor(nSrc, ps / pd, pd);
  }

  /** The last byte of the source is not on its pending-byte page. */
  lemma LastByte(ps: nat, pb: nat, src: seq<byte>, nSrc: nat)
    requires 0 < ps && pb % ps == 0 && 0 < nSrc && |src| == nSrc * ps && nSrc != pb / ps + 1
    ensures 0 < |src| && !Pending(|src| - 1, pb, ps)
  {
    Multiply(1, nSrc, ps);
    OnPage(|src| - 1, ps, pb);
    assert (nSrc - 1) * ps + (ps - 1) == |src| - 1;
    Arithmetic.Euclid(|src| - 1, ps, nSrc - 1, ps - 1);
  }

  lemma LastCopied(ps: nat, pd: nat, pb: nat, wal: bool, src: seq<byte>, nSrc: nat, dest: seq<byte>)
    requires Sizes(ps, pd, pb) && 0 < nSrc && |src| == nSrc * ps && nSrc != pb / ps + 1 && pd <= ps
    requires Headed(ps, pd, pb, wal, src, dest)
    ensures |dest| >= |src|
  {
    LastByte(ps, pb, src, nSrc);
    assert KeptByte(src, dest, wal, |src| - 1);
  }

  lemma LastPageFull(ps: nat, pd: nat, pb: nat, wal: bool, src: seq<byte>, nSrc: nat, dest: seq<byte>, dest': seq<byte>)
    requires Sizes(ps, pd, pb) && 0 < nSrc && |src| == nSrc * ps && nSrc != pb / ps + 1 && ps < pd
    requires Headed(ps, pd, pb, wal, src, dest) && |dest'| >= |dest|
    requires forall o :: pb + ps <= o < pb + pd && o < |src| ==> SameAt(src, dest', o)
    ensures |dest'| >= |src|
  {
    LastByte(ps, pb, src, nSrc);
    if Pending(|src| - 1, pb, pd) {
      assert SameAt(src, dest', |src| - 1);
    } else {
      assert KeptByte(src, dest, wal, |src| - 1);
    }
  }

  lemma AllSame(ps: nat, pd: nat, pb: nat, wal: bool, src: seq<byte>, dest: seq<byte>)
    requires pd <= ps && |dest| == |src| && Headed(ps, pd, pb, wal, src, dest)
    ensures Complete(ps, pb, wal, src, dest)
  {
    forall o | 0 <= o < |src| && !Pending(o, pb, ps) && !Own(o, wal) ensures dest[o] == src[o] {
      assert KeptByte(src, dest, wal, o);
    }
  }

  /** The condition of SourceWrite is needed: if the source has been cut below iNext and then a
      page is written beyond the next one, there is a destination that agreed with the source and
      does so no longer. */
  lemma UnreportedGap(ps: nat, pd: nat, pb: nat, src: seq<byte>, nSrc: nat, iNext: nat, iPage: nat, data: seq<byte>)
    returns (dest: seq<byte>)
    requires Sizes(ps, pd, pb) && |src| == nSrc * ps && |data| == ps && nSrc + 1 < iPage && nSrc + 1 < iNext
    requires !Pending(|src|, pb, ps) && !Pending(|src|, pb, pd)
    ensures (iNext - 1) * ps >= 0 && Agrees(ps, pd, pb, src, dest, (iNext - 1) * ps)
    ensures !Agrees(ps, pd, pb, Written(src, ps, iPage, data), dest, (iNext - 1) * ps)
  {
    dest := src + [1];
    forall o | 0 <= o < |src| ensures SameByte(src, dest, o) {
    }
    var src', o := Written(src, ps, iPage, data), |src|;
    Multiply(nSrc + 1, iPage - 1, ps);
    Multiply(nSrc + 1, iNext - 1, ps);
    NotInHeader(nSrc, ps);
    assert src'[o] == 0 && dest[o] == 1 && !SameByte(src', dest, o);
  }

  lemma NotInHeader(n: nat, ps: nat)
    requires 512 <= ps
    ensures !Stamped(n * ps) && (n + 1) * ps == n * ps + ps
  {
    if n > 0 {
      Multiply(1, n, ps);
    }
  }

  // ----- whole runs

  /** What may happen to a backup: the source is written, cut or extended over its pending-byte
      page by this process, or changed by another one; or a step is made. */
  datatype Event =
    | Write(iPage: nat, data: seq<byte>)
    | Cut(n: nat)
    | Skip(unused: seq<byte>)
    | Changed(src: seq<byte>, n: nat)
    | StepOf(nPage: int, busy: bool)

  /** The source and how far the backup is. */
  datatype State = State(src: seq<byte>, nSrc: nat, iNext: nat, isAttached: bool, rc: Status)

  ghost function Stepped(ps: nat, pd: nat, wal: bool, s: State, nPage: int, busy: bool): State {
    if Fatal(s.rc) then s
    else if busy then s.(rc := Busy)
    else if wal && ps != pd then s.(rc := ReadOnly)
    else
      var iNext := Reached(s.iNext, s.nSrc, nPage);
      if iNext > s.nSrc then s.(iNext := iNext, rc := Done) else s.(iNext := iNext, rc := Ok, isAttached := true)
  }

  /** Whether the event makes sense: a page is written whole and is not the pending-byte page, no
      page comes into being unreported below iNext, and the file does not end with its
      pending-byte page when a step is made. */
  ghost predicate Possible(ps: nat, pb: nat, s: State, e: Event)
    requires 0 < ps
  {
    match e
    case Write(iPage, data) =>
      && 1 <= iPage != pb / ps + 1 && |data| == ps
      && (iPage <= s.nSrc + 1 || s.iNext <= s.nSrc + 1 || Fatal(s.rc))
    case Cut(n) => n < s.nSrc
    case Skip(unused) => s.nSrc == pb / ps && |unused| == ps
    case Changed(src, n) => |src| == n * ps
    case StepOf(_, _) => s.nSrc != pb / ps + 1
  }

  /** One event; those that make no sense do not happen. */
  ghost function After(ps: nat, pd: nat, pb: nat, wal: bool, s: State, e: Event): State
    requires 0 < ps
  {
    if !Possible(ps, pb, s, e) then s
    else
      match e
      case Write(iPage, data) => WriteTo(s, ps, iPage, data)
      case Cut(n) => s.(src := Truncated(s.src, n * ps), nSrc := n)
      case Skip(unused) => s.(src := s.src + unused, nSrc := s.nSrc + 1)
      case Changed(src, n) => s.(src := src, nSrc := n, iNext := 1)
      case StepOf(nPage, busy) => Stepped(ps, pd, wal, s, nPage, busy)
  }

  ghost function AfterAll(ps: nat, pd: nat, pb: nat, wal: bool, s: State, events: seq<Event>): State
    requires 0 < ps
  {
    if events == [] then s
    else
      var n := |events| - 1;
      After(ps, pd, pb, wal, AfterAll(ps, pd, pb, wal, s, events[..n]), events[n])
  }

  /** Only a step finishes a backup, and it does not change the source. */
  lemma FinishedByStep(ps: nat, pd: nat, pb: nat, wal: bool, s: State, e: Event)
    requires 0 < ps
    ensures var s' := After(ps, pd, pb, wal, s, e);
      && (Fatal(s.rc) ==> s'.rc == s.rc)
      && (s.rc != Done && s'.rc == Done ==>
           e.StepOf? && !e.busy && s'.src == s.src && s'.nSrc == s.nSrc && !Fatal(s.rc))
  {
  }

  /** Something happens to the source. */
  method SourceEvent(b: Backup, e: Event)
    requires b.Valid() && !e.StepOf?
    modifies b
    ensures b.Valid() && b.Value() == After(b.ps, b.pd, b.pb, b.wal, old(b.Value()), e)
    ensures Fatal(b.rc) ==> b.dest == old(b.dest)
  {
    match e
    case Write(iPage, data) =>
      if 1 <= iPage && |data| == b.ps && iPage != b.pb / b.ps + 1 &&
         (iPage <= b.nSrc + 1 || b.iNext <= b.nSrc + 1 || Fatal(b.rc)) {
        b.SourceWrite(iPage, data);
      }
    case Cut(n) =>
      if n < b.nSrc {
        b.SourceTruncate(n);
      }
    case Skip(unused) =>
      if b.nSrc == b.pb / b.ps && |unused| == b.ps {
        b.SourceSkip(unused);
      }
    case Changed(src, n) =>
      if |src| == n * b.ps {
        b.Restart(src, n);
      }
  }

  /** One event on the backup itself. */
  method Happen(b: Backup, e: Event, newDb: seq<byte>, cookie: u32, change: u32, version: u32)
    requires b.Valid() && |newDb| == b.pd
    modifies b
    ensures b.Valid() && b.Value() == After(b.ps, b.pd, b.pb, b.wal, old(b.Value()), e)
    ensures Fatal(old(b.rc)) ==> b.dest == old(b.dest)
    ensures old(b.rc) != Done && b.rc == Done ==> Fields(b.dest, cookie, change, version)
    ensures old(b.rc) != Done && b.rc == Done && b.nSrc > 0 ==> Complete(b.ps, b.pb, b.wal, b.src, b.dest)
    ensures old(b.rc) != Done && b.rc == Done && b.nSrc == 0 ==> Empty(b.ps, b.pd, b.wal, newDb, b.dest)
  {
    FinishedByStep(b.ps, b.pd, b.pb, b.wal, b.Value(), e);
    if e.StepOf? {
      if b.nSrc != b.pb / b.ps + 1 {
        b.Step(e.nPage, e.busy, newDb, cookie, change, version);
      }
    } else {
      SourceEvent(b, e);
    }
  }

  /** The backup is finished by event k, and `dest` is a copy of the source of that time. */
  ghost predicate CopyOf(ps: nat, pd: nat, pb: nat, wal: bool, s: State, events: seq<Event>, newDb: seq<byte>,
                         cookie: u32, change: u32, version: u32, dest: seq<byte>, k: nat)
    requires 0 < ps && k < |events|
  {
    var t := AfterAll(ps, pd, pb, wal, s, events[..k]);
    && t.rc != Done && AfterAll(ps, pd, pb, wal, s, events[..k + 1]).rc == Done
    && events[k].StepOf? && !events[k].busy && Fields(dest, cookie, change, version)
    && if t.nSrc > 0 then Complete(ps, pb, wal, t.src, dest) else Empty(ps, pd, wal, newDb, dest)
  }

  lemma CopiedBy(ps: nat, pd: nat, pb: nat, wal: bool, s: State, events: seq<Event>, newDb: seq<byte>,
                 cookie: u32, change: u32, version: u32, dest: seq<byte>, i: nat)
    requires 0 < ps && i < |events| && Fields(dest, cookie, change, version)
    requires var t := AfterAll(ps, pd, pb, wal, s, events[..i]);
      var t' := After(ps, pd, pb, wal, t, events[i]);
      && t.rc != Done && t'.rc == Done
      && if t'.nSrc > 0 then Complete(ps, pb, wal, t'.src, dest) else Empty(ps, pd, wal, newDb, dest)
    ensures CopyOf(ps, pd, pb, wal, s, events, newDb, cookie, change, version, dest, i)
  {
    assert events[..i + 1][..i] == events[..i];
    FinishedByStep(ps, pd, pb, wal, AfterAll(ps, pd, pb, wal, s, events[..i]), events[i]);
  }

  lemma OneMoreEvent(ps: nat, pd: nat, pb: nat, wal: bool, s: State, events: seq<Event>, i: nat)
    requires 0 < ps && i < |events|
    ensures AfterAll(ps, pd, pb, wal, s, events[..i + 1]) ==
      After(ps, pd, pb, wal, AfterAll(ps, pd, pb, wal, s, events[..i]), events[i])
  {
    assert events[..i + 1][..i] == events[..i];
  }

  /** After i events: the backup is where they have brought it, and if it is finished, event k was
      what finished it. */
  ghost predicate SoFar(ps: nat, pd: nat, pb: nat, wal: bool, s: State, events: seq<Event>, newDb: seq<byte>,
                        cookie: u32, change: u32, version: u32, i: nat, v: State, dest: seq<byte>, k: nat)
    requires 0 < ps && i <= |events|
  {
    && v == AfterAll(ps, pd, pb, wal, s, events[..i])
    && (v.rc == Done ==> k < i && CopyOf(ps, pd, pb, wal, s, events, newDb, cookie, change, version, dest, k))
  }

  method RunOne(b: Backup, events: seq<Event>, i: nat, newDb: seq<byte>, cookie: u32, change: u32, version: u32,
                ghost s: State, ghost k: nat)
    returns (ghost k': nat)
    requires b.Valid() && |newDb| == b.pd && i < |events|
    requires SoFar(b.ps, b.pd, b.pb, b.wal, s, events, newDb, cookie, change, version, i, b.Value(), b.dest, k)
    modifies b
    ensures b.Valid()
    ensures SoFar(b.ps, b.pd, b.pb, b.wal, s, events, newDb, cookie, change, version, i + 1, b.Value(), b.dest, k')
  {
    ghost var was := b.Value();
    FinishedByStep(b.ps, b.pd, b.pb, b.wal, was, events[i]);
    OneMoreEvent(b.ps, b.pd, b.pb, b.wal, s, events, i);
    Happen(b, events[i], newDb, cookie, change, version);
    k' := k;
    if was.rc != Done {
      k' := i;
      if b.rc == Done {
        CopiedBy(b.ps, b.pd, b.pb, b.wal, s, events, newDb, cookie, change, version, b.dest, i);
      }
    }
  }

  /** Whatever happens, in whatever order: the source, the next page and the result code are what
      the events make them, and a finished backup is a copy of the source as it was when the step
      was made that finished it. */
  method RunBackup(b: Backup, events: seq<Event>, newDb: seq<byte>, cookie: u32, change: u32, version: u32)
    requires b.Valid() && b.rc != Done && |newDb| == b.pd
    modifies b
    ensures b.Valid() && b.Value() == AfterAll(b.ps, b.pd, b.pb, b.wal, old(b.Value()), events)
    ensures b.rc == Done ==> exists k | 0 <= k < |events| ::
      CopyOf(b.ps, b.pd, b.pb, b.wal, old(b.Value()), events, newDb, cookie, change, version, b.dest, k)
  {
    ghost var s, k := b.Value(), 0;
    var i := 0;
    while i < |events|
      invariant i <= |events| && b.Valid()
      invariant SoFar(b.ps, b.pd, b.pb, b.wal, s, events, newDb, cookie, change, version, i, b.Value(), b.dest, k)
    {
      k := RunOne(b, events, i, newDb, cookie, change, version, s, k);
      i := i + 1;
    }
    assert events[..|events|] == events;
  }
}
