/** The pointer map in the bytes of its pages. */
module PtrMapPage {
  import opened Bytes
  import opened PtrMap

  /** A page that has an entry. */
  predicate HasEntry(usable: nat, pend: nat, key: nat) {
    2 < key && Ordinary(usable / 5, pend, key)
  }

  /** The pointer-map pages of all pages up to nPage are there. */
  ghost predicate MapOk(pages: map<nat, seq<byte>>, usable: nat, pend: nat, nPage: nat) {
    && 10 <= usable && 2 < pend
    && forall key: nat :: HasEntry(usable, pend, key) && key <= nPage ==>
         PageThere(pages, usable, PtrmapPageno(usable / 5, pend, key))
  }

  ghost predicate PageThere(pages: map<nat, seq<byte>>, usable: nat, m: nat) {
    m in pages && |pages[m]| == usable
  }

  /** The entry at an offset: the type and the parent's page number. */
  function EntryIn(d: seq<byte>, offset: nat): (byte, nat)
    requires offset + 5 <= |d|
  {
    (d[offset], Get4(d, offset + 1))
  }

  lemma EntryPlace(usable: nat, pend: nat, key: nat)
    requires 10 <= usable && 2 < pend && HasEntry(usable, pend, key)
    ensures 0 <= PtrOffset(PtrmapPageno(usable / 5, pend, key), key) <= usable - 5
  {
    var n := usable / 5;
    OrdinaryBySlot(n, pend, key);
    PagenoBySlot(n, pend, key);
    StartSlot(n, key);
    NextSlot(n, pend);
  }

  datatype Result = Corrupt | Found(eType: byte, parent: nat)

  /** What an entry says: there are five kinds. */
  function Read(e: (byte, nat)): Result {
    if 1 <= e.0 <= 5 then Found(e.0, e.1) else Corrupt
  }

  /** ptrmapGet, also for pages that have no entry: page 1, and the pointer-map pages. */
  method PtrmapGet(pages: map<nat, seq<byte>>, usable: nat, pend: nat, ghost nPage: nat, key: nat) returns (r: Result)
    requires MapOk(pages, usable, pend, nPage) && key <= nPage && key != pend
    ensures r == if HasEntry(usable, pend, key) then Read(EntryOf(pages, usable, pend, nPage, key)) else Corrupt
  {
    var iPtrmap := PtrmapPageno(usable / 5, pend, key);
    if iPtrmap == 0 {
      return Corrupt;
    }
    var offset := PtrOffset(iPtrmap, key);
    NegativeOffset(usable, pend, key);
    if offset < 0 {
      return Corrupt;
    }
    EntryPlace(usable, pend, key);
    assert PageThere(pages, usable, iPtrmap);
    var eType, parent := pages[iPtrmap][offset], Get4(pages[iPtrmap], offset + 1);
    if eType < 1 || eType > 5 {
      return Corrupt;
    }
    return Found(eType, parent);
  }

  /** The offset is negative exactly for the pages without an entry. */
  lemma NegativeOffset(usable: nat, pend: nat, key: nat)
    requires 10 <= usable && 2 < pend && 2 <= key != pend
    ensures PtrOffset(PtrmapPageno(usable / 5, pend, key), key) < 0 <==> !HasEntry(usable, pend, key)
  {
    if HasEntry(usable, pend, key) {
      EntryPlace(usable, pend, key);
    }
  }

  /** The entry of a page. */
  ghost function EntryOf(pages: map<nat, seq<byte>>, usable: nat, pend: nat, nPage: nat, key: nat): (byte, nat)
    requires MapOk(pages, usable, pend, nPage) && HasEntry(usable, pend, key) && key <= nPage
  {
    EntryPlace(usable, pend, key);
    var m := PtrmapPageno(usable / 5, pend, key);
    assert PageThere(pages, usable, m);
    EntryIn(pages[m], PtrOffset(m, key))
  }

  lemma PutEntry(d: seq<byte>, offset: nat, eType: byte, parent: nat, other: nat)
    requires offset + 5 <= |d| && parent < 0x1_0000_0000 && other + 5 <= |d|
    requires other + 5 <= offset || offset + 5 <= other
    ensures EntryIn(Put4(d[offset := eType], offset + 1, parent), offset) == (eType, parent)
    ensures EntryIn(Put4(d[offset := eType], offset + 1, parent), other) == EntryIn(d, other)
  {
    GetPut4(d[offset := eType], offset + 1, parent);
  }

  /** ptrmapPut: the entry of the page is set, and the entries of all other pages are as they
      were.  It fails, and changes nothing, exactly for pages that have no entry. */
  method PtrmapPut(pages: map<nat, seq<byte>>, usable: nat, pend: nat, ghost nPage: nat, key: nat, eType: byte,
                   parent: nat)
    returns (ok: bool, pages': map<nat, seq<byte>>)
    requires MapOk(pages, usable, pend, nPage) && key <= nPage && key != pend && parent < 0x1_0000_0000
    ensures ok <==> HasEntry(usable, pend, key)
    ensures MapOk(pages', usable, pend, nPage) && (!ok ==> pages' == pages)
    ensures ok ==> StoredAt(pages', PtrmapPageno(usable / 5, pend, key), PtrmapPageno(usable / 5, pend, key) + 1, key,
                            eType, parent)
    ensures ok ==> EntryOf(pages', usable, pend, nPage, key) == (eType, parent)
    ensures forall k: nat :: HasEntry(usable, pend, k) && k <= nPage && k != key ==>
      EntryOf(pages', usable, pend, nPage, k) == EntryOf(pages, usable, pend, nPage, k)
  {
    pages' := pages;
    var iPtrmap := PtrmapPageno(usable / 5, pend, key);
    if iPtrmap == 0 {
      return false, pages;
    }
    NegativeOffset(usable, pend, key);
    if PtrOffset(iPtrmap, key) < 0 {
      return false, pages;
    }
    ok := true;
    pages' := WriteEntry(pages, usable, pend, nPage, key, eType, parent);
  }

  /** The type in one byte and the parent's page number in four, in the order of the pages. */
  ghost predicate StoredAt(pages: map<nat, seq<byte>>, m: nat, first: nat, key: nat, eType: byte, parent: nat) {
    && m in pages && first <= key && 5 * (key - first) + 5 <= |pages[m]|
    && pages[m][5 * (key - first)] == eType && Get4(pages[m], 5 * (key - first) + 1) == parent
  }

  method WriteEntry(pages: map<nat, seq<byte>>, usable: nat, pend: nat, ghost nPage: nat, key: nat, eType: byte,
                    parent: nat)
    returns (pages': map<nat, seq<byte>>)
    requires MapOk(pages, usable, pend, nPage) && HasEntry(usable, pend, key) && key <= nPage && parent < 0x1_0000_0000
    ensures MapOk(pages', usable, pend, nPage) && EntryOf(pages', usable, pend, nPage, key) == (eType, parent)
    ensures StoredAt(pages', PtrmapPageno(usable / 5, pend, key), PtrmapPageno(usable / 5, pend, key) + 1, key, eType,
                     parent)
    ensures forall k: nat :: HasEntry(usable, pend, k) && k <= nPage && k != key ==>
      EntryOf(pages', usable, pend, nPage, k) == EntryOf(pages, usable, pend, nPage, k)
  {
    EntryPlace(usable, pend, key);
    var iPtrmap := PtrmapPageno(usable / 5, pend, key);
    assert PageThere(pages, usable, iPtrmap);
    var offset := PtrOffset(iPtrmap, key);
    var d := pages[iPtrmap];
    pages' := pages;
    if eType != d[offset] || Get4(d, offset + 1) != parent {
      pages' := pages[iPtrmap := Put4(d[offset := eType], offset + 1, parent)];
      GetPut4(d[offset := eType], offset + 1, parent);
    }
    StillOk(pages, pages', usable, pend, nPage, iPtrmap);
    forall k: nat | HasEntry(usable, pend, k) && k <= nPage && k != key
      ensures EntryOf(pages', usable, pend, nPage, k) == EntryOf(pages, usable, pend, nPage, k)
    {
      OtherEntry(pages, pages', usable, pend, nPage, key, k, eType, parent);
    }
  }

  lemma StillOk(pages: map<nat, seq<byte>>, pages': map<nat, seq<byte>>, usable: nat, pend: nat, nPage: nat, m: nat)
    requires MapOk(pages, usable, pend, nPage) && PageThere(pages', usable, m) && pages'.Keys >= pages.Keys
    requires forall p :: p in pages && p != m ==> pages'[p] == pages[p]
    ensures MapOk(pages', usable, pend, nPage)
  {
    forall key: nat | HasEntry(usable, pend, key) && key <= nPage
      ensures PageThere(pages', usable, PtrmapPageno(usable / 5, pend, key))
    {
      assert PageThere(pages, usable, PtrmapPageno(usable / 5, pend, key));
    }
  }

  lemma OtherEntry(pages: map<nat, seq<byte>>, pages': map<nat, seq<byte>>, usable: nat, pend: nat, nPage: nat,
                   key: nat, k: nat, eType: byte, parent: nat)
    requires MapOk(pages, usable, pend, nPage) && MapOk(pages', usable, pend, nPage) && parent < 0x1_0000_0000
    requires HasEntry(usable, pend, key) && key <= nPage && HasEntry(usable, pend, k) && k <= nPage && k != key
    requires var m := PtrmapPageno(usable / 5, pend, key);
      && PageThere(pages, usable, m) && 0 <= PtrOffset(m, key) <= usable - 5
      && (pages' == pages || pages' == pages[m :=
        Put4(pages[m][PtrOffset(m, key) := eType], PtrOffset(m, key) + 1, parent)])
    ensures EntryOf(pages', usable, pend, nPage, k) == EntryOf(pages, usable, pend, nPage, k)
  {
    SlotsAreDistinct(usable, pend, key, k);
    var m, m' := PtrmapPageno(usable / 5, pend, key), PtrmapPageno(usable / 5, pend, k);
    EntryPlace(usable, pend, k);
    assert PageThere(pages, usable, m');
    if m == m' {
      PutEntry(pages[m], PtrOffset(m, key), eType, parent, PtrOffset(m, k));
    }
  }

  // ----- runs

  datatype Put = Put(key: nat, eType: byte, parent: nat)

  /** The last of the puts for page `key`, or what there was before. */
  ghost function LastPut(puts: seq<Put>, key: nat, before: (byte, nat)): (byte, nat) {
    if puts == [] then before
    else
      var x := puts[|puts| - 1];
      if x.key == key then (x.eType, x.parent) else LastPut(puts[..|puts| - 1], key, before)
  }

  /** After any puts, a get gives what was put last for that very page, however the entries of
      other pages were changed in between. */
  method PutsThenGet(pages: map<nat, seq<byte>>, usable: nat, pend: nat, ghost nPage: nat, puts: seq<Put>, key: nat)
    returns (r: Result)
    requires MapOk(pages, usable, pend, nPage) && key <= nPage && HasEntry(usable, pend, key)
    requires forall i :: 0 <= i < |puts| ==>
      puts[i].key <= nPage && puts[i].key != pend && puts[i].parent < 0x1_0000_0000
    ensures r == Read(LastPut(puts, key, EntryOf(pages, usable, pend, nPage, key)))
  {
    var now := pages;
    ghost var before := EntryOf(pages, usable, pend, nPage, key);
    for i := 0 to |puts|
      invariant MapOk(now, usable, pend, nPage)
      invariant EntryOf(now, usable, pend, nPage, key) == LastPut(puts[..i], key, before)
    {
      var x, ok := puts[i], false;
      ok, now := PtrmapPut(now, usable, pend, nPage, x.key, x.eType, x.parent);
      assert puts[..i + 1][..i] == puts[..i];
    }
    assert puts[..|puts|] == puts;
    r := PtrmapGet(now, usable, pend, nPage, key);
  }
}
