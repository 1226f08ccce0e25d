/** Payloads: building a cell with its overflow chain, and reading any part of a payload back
    from the page and the chain, with or without a cache of the chain's page numbers. */
module Payload {
  import opened Bytes
  import opened Varint
  import opened CellFormat
  import Arithmetic

  /** An overflow page: the next page of the chain, 0 at the end, and its content. */
  datatype Ovfl = Ovfl(next: nat, content: seq<byte>)

  /** The chain that starts at page `first` holds the data, `sz` bytes on each page. */
  ghost predicate Holds(pages: map<nat, Ovfl>, first: nat, data: seq<byte>, sz: nat)
    decreases |data|
  {
    sz > 0 &&
    if data == [] then first == 0
    else
      && first != 0 && first in pages
      && if |data| <= sz then pages[first].next == 0 && data <= pages[first].content
         else |pages[first].content| >= sz && pages[first].content[..sz] == data[..sz]
              && Holds(pages, pages[first].next, data[sz..], sz)
  }

  /** The page number of the chain's page i, 0 past its end. */
  ghost function PageNo(pages: map<nat, Ovfl>, first: nat, i: nat): nat
    decreases i
  {
    if i == 0 || first !in pages then first else PageNo(pages, pages[first].next, i - 1)
  }

  /** The data from page i on. */
  ghost function From(data: seq<byte>, i: nat, sz: nat): seq<byte> {
    if i == 0 then data else if |data| <= sz then [] else From(data[sz..], i - 1, sz)
  }

  /** How many pages the data takes. */
  ghost function PageCount(n: nat, sz: nat): nat
    requires sz > 0
  {
    if n == 0 then 0 else if n <= sz then 1 else 1 + PageCount(n - sz, sz)
  }

  lemma {:induction false} ChainFrom(pages: map<nat, Ovfl>, first: nat, data: seq<byte>, sz: nat, i: nat)
    requires Holds(pages, first, data, sz) && i < PageCount(|data|, sz)
    ensures Holds(pages, PageNo(pages, first, i), From(data, i, sz), sz) && From(data, i, sz) != []
    ensures From(data, i + 1, sz) == if |From(data, i, sz)| <= sz then [] else From(data, i, sz)[sz..]
    ensures PageNo(pages, first, i) in pages && PageNo(pages, first, i + 1) == pages[PageNo(pages, first, i)].next
    ensures i + 1 < PageCount(|data|, sz) <==> |From(data, i, sz)| > sz
    decreases i
  {
    if i == 0 {
    } else {
      ChainFrom(pages, pages[first].next, data[sz..], sz, i - 1);
    }
  }

  /** Offset o is o % sz bytes into page o / sz. */
  lemma {:induction false} Locate(data: seq<byte>, o: nat, sz: nat)
    requires 0 < sz && o < |data|
    ensures o / sz < PageCount(|data|, sz) && o % sz < |From(data, o / sz, sz)|
    ensures From(data, o / sz, sz)[o % sz..] == data[o..]
    decreases o
  {
    if o < sz {
      Small(o, sz);
    } else {
      OneLess(o, sz);
      Locate(data[sz..], o - sz, sz);
      assert data[sz..][o - sz..] == data[o..];
    }
  }

  lemma Small(o: nat, sz: nat)
    requires o < sz
    ensures o / sz == 0 && o % sz == o
  {
  }

  lemma OneLess(o: nat, sz: nat)
    requires 0 < sz <= o
    ensures (o - sz) / sz == o / sz - 1 && (o - sz) % sz == o % sz && o / sz >= 1
  {
    Arithmetic.Euclid(o, sz, (o - sz) / sz + 1, (o - sz) % sz);
  }

  lemma {:induction false} CountIs(n: nat, sz: nat)
    requires 0 < sz
    ensures PageCount(n, sz) == (n + sz - 1) / sz
    decreases n
  {
    if n == 0 {
      Small(sz - 1, sz);
    } else if n <= sz {
      OneLess(n + sz - 1, sz);
      Small(n - 1, sz);
    } else {
      CountIs(n - sz, sz);
      OneLess(n + sz - 1, sz);
    }
  }

  // ----- reading

  /** The cache knows some of the chain's page numbers; 0 means not yet known. */
  ghost predicate CacheOk(cache: seq<nat>, pages: map<nat, Ovfl>, first: nat, n: nat) {
    |cache| >= n && forall i :: 0 <= i < n ==> cache[i] == 0 || cache[i] == PageNo(pages, first, i)
  }

  /** Where reading stands: `got` has been read, the rest begins `offset` bytes into page iIdx. */
  ghost predicate Reading(pages: map<nat, Ovfl>, first: nat, data: seq<byte>, sz: nat, want: seq<byte>, got: seq<byte>,
                          iIdx: nat, offset: nat, nextPage: nat) {
    && sz > 0 && iIdx < PageCount(|data|, sz) && nextPage == PageNo(pages, first, iIdx)
    && |got| < |want| && offset + |want| - |got| <= |From(data, iIdx, sz)|
    && want == got + From(data, iIdx, sz)[offset..offset + |want| - |got|]
  }

  lemma StepOver(pages: map<nat, Ovfl>, first: nat, data: seq<byte>, sz: nat, want: seq<byte>, got: seq<byte>,
                 iIdx: nat, offset: nat, nextPage: nat)
    requires Holds(pages, first, data, sz) && Reading(pages, first, data, sz, want, got, iIdx, offset, nextPage)
    requires offset >= sz
    ensures nextPage in pages && Reading(pages, first, data, sz, want, got, iIdx + 1, offset - sz, pages[nextPage].next)
  {
    ChainFrom(pages, first, data, sz, iIdx);
    var d, d', n := From(data, iIdx, sz), From(data, iIdx + 1, sz), |want| - |got|;
    assert d' == d[sz..];
    Shifted(d, d', sz, offset, n);
  }

  lemma Shifted(d: seq<byte>, d': seq<byte>, sz: nat, offset: nat, n: nat)
    requires sz <= |d| && d' == d[sz..] && sz <= offset && offset + n <= |d|
    ensures d'[offset - sz..offset - sz + n] == d[offset..offset + n]
  {
  }

  lemma ReadSome(pages: map<nat, Ovfl>, first: nat, data: seq<byte>, sz: nat, want: seq<byte>, got: seq<byte>,
                 iIdx: nat, offset: nat, nextPage: nat, a: nat)
    requires Holds(pages, first, data, sz) && Reading(pages, first, data, sz, want, got, iIdx, offset, nextPage)
    requires offset < sz
    requires a == if |want| - |got| + offset > sz then sz - offset else |want| - |got|
    ensures nextPage in pages && offset + a <= |pages[nextPage].content|
    ensures var got' := got + pages[nextPage].content[offset..offset + a];
      if a == |want| - |got| then got' == want
      else Reading(pages, first, data, sz, want, got', iIdx + 1, 0, pages[nextPage].next)
  {
    ChainFrom(pages, first, data, sz, iIdx);
    var d, d', n := From(data, iIdx, sz), From(data, iIdx + 1, sz), |want| - |got|;
    var c := pages[nextPage].content;
    OnPage(d, c, sz, offset, a);
    var got' := got + c[offset..offset + a];
    if a < n {
      assert d' == d[sz..] && offset + a == sz;
      assert d[offset..offset + n] == d[offset..sz] + d[sz..offset + n];
      assert d'[0..n - a] == d[sz..offset + n];
    }
  }

  lemma OnPage(d: seq<byte>, c: seq<byte>, sz: nat, offset: nat, a: nat)
    requires if |d| <= sz then d <= c else |c| >= sz && c[..sz] == d[..sz]
    requires offset + a <= sz && offset + a <= |d|
    ensures offset + a <= |c| && c[offset..offset + a] == d[offset..offset + a]
  {
    var m := if |d| <= sz then |d| else sz;
    assert c[..m] == d[..m];
    assert c[offset..offset + a] == c[..m][offset..offset + a] && d[offset..offset + a] == d[..m][offset..offset + a];
  }

  /** One round of the loop over overflow pages. */
  method ReadPage(pages: map<nat, Ovfl>, cache: seq<nat>, sz: nat, iIdx: nat, offset: nat, amt: nat, nextPage: nat,
                  got: seq<byte>, ghost first: nat, ghost data: seq<byte>, ghost want: seq<byte>)
    returns (cache': seq<nat>, offset': nat, amt': nat, nextPage': nat, got': seq<byte>)
    requires Holds(pages, first, data, sz) && Reading(pages, first, data, sz, want, got, iIdx, offset, nextPage)
    requires amt == |want| - |got| && CacheOk(cache, pages, first, PageCount(|data|, sz))
    ensures |cache'| == |cache| && CacheOk(cache', pages, first, PageCount(|data|, sz)) && amt' == |want| - |got'|
    ensures if amt' == 0 then got' == want
            else Reading(pages, first, data, sz, want, got', iIdx + 1, offset', nextPage')
  {
    ChainFrom(pages, first, data, sz, iIdx);
    cache' := cache[iIdx := nextPage];
    if offset >= sz {
      StepOver(pages, first, data, sz, want, got, iIdx, offset, nextPage);
      nextPage' := if cache'[iIdx + 1] != 0 then cache'[iIdx + 1] else pages[nextPage].next;
      offset', amt', got' := offset - sz, amt, got;
    } else {
      var a := amt;
      if a + offset > sz {
        a := sz - offset;
      }
      ReadSome(pages, first, data, sz, want, got, iIdx, offset, nextPage, a);
      got' := got + pages[nextPage].content[offset..offset + a];
      nextPage', offset', amt' := pages[nextPage].next, 0, amt - a;
    }
  }

  /** Where to begin: at the page of the offset, if the cache has it, else at the first. */
  method Seek(pages: map<nat, Ovfl>, cache0: seq<nat>, validOvfl: bool, sz: nat, nOvflBytes: nat, offset0: nat,
              ghost amt: nat, first: nat, ghost data: seq<byte>, ghost want: seq<byte>, ghost got: seq<byte>)
    returns (cache: seq<nat>, iIdx: nat, offset: nat, nextPage: nat)
    requires Holds(pages, first, data, sz) && nOvflBytes == |data| && 0 < amt && offset0 + amt <= |data|
    requires amt == |want| - |got|
    requires want == got + data[offset0..offset0 + amt]
    requires validOvfl ==> CacheOk(cache0, pages, first, PageCount(|data|, sz))
    ensures CacheOk(cache, pages, first, PageCount(|data|, sz))
    ensures Reading(pages, first, data, sz, want, got, iIdx, offset, nextPage)
  {
    cache, iIdx, offset, nextPage := cache0, 0, offset0, first;
    Skip(pages, first, data, sz, want, got, offset, offset / sz, offset % sz);
    if !validOvfl {
      CountIs(|data|, sz);
      cache := seq((nOvflBytes + sz - 1) / sz, i => 0);
    } else if cache[offset / sz] != 0 {
      iIdx, nextPage, offset := offset / sz, cache[offset / sz], offset % sz;
    }
  }

  /** Reading may begin at the first page, or at the one that has the offset. */
  lemma Skip(pages: map<nat, Ovfl>, first: nat, data: seq<byte>, sz: nat, want: seq<byte>, got: seq<byte>, offset: nat,
             q: nat, r: nat)
    requires sz > 0 && |got| < |want| && offset + |want| - |got| <= |data| && q == offset / sz && r == offset % sz
    requires want == got + data[offset..offset + |want| - |got|]
    ensures q < PageCount(|data|, sz)
    ensures Reading(pages, first, data, sz, want, got, 0, offset, first)
    ensures Reading(pages, first, data, sz, want, got, q, r, PageNo(pages, first, q))
  {
    var n := |want| - |got|;
    Locate(data, offset, sz);
    var d := From(data, q, sz);
    assert d[r..] == data[offset..];
    assert d[r..r + n] == d[r..][..n] && data[offset..offset + n] == data[offset..][..n];
  }

  /** The part of accessPayload that reads the overflow chain. */
  method ReadChain(pages: map<nat, Ovfl>, cache0: seq<nat>, validOvfl: bool, sz: nat, nOvflBytes: nat, offset0: nat,
                   amt0: nat, first: nat, got: seq<byte>, ghost data: seq<byte>, ghost want: seq<byte>)
    returns (buf: seq<byte>, cache: seq<nat>)
    requires Holds(pages, first, data, sz) && nOvflBytes == |data| && 0 < amt0 && offset0 + amt0 <= |data|
    requires amt0 == |want| - |got|
    requires want == got + data[offset0..offset0 + amt0]
    requires validOvfl ==> CacheOk(cache0, pages, first, PageCount(|data|, sz))
    ensures buf == want && CacheOk(cache, pages, first, PageCount(|data|, sz))
  {
    var iIdx, offset, nextPage, amt := 0, 0, 0, amt0;
    cache, iIdx, offset, nextPage :=
      Seek(pages, cache0, validOvfl, sz, nOvflBytes, offset0, amt0, first, data, want, got);
    buf := got;
    while amt > 0
      invariant CacheOk(cache, pages, first, PageCount(|data|, sz)) && amt == |want| - |buf|
      invariant if amt == 0 then buf == want else Reading(pages, first, data, sz, want, buf, iIdx, offset, nextPage)
      decreases if amt == 0 then 0 else PageCount(|data|, sz) - iIdx
    {
      ChainFrom(pages, first, data, sz, iIdx);
      assert nextPage != 0;
      cache, offset, amt, nextPage, buf :=
        ReadPage(pages, cache, sz, iIdx, offset, amt, nextPage, buf, first, data, want);
      iIdx := iIdx + 1;
    }
  }

  /** accessPayload, reading amt bytes at `offset` of a payload whose first bytes are `local`: the
      same bytes whatever the cache knows, and the cache stays right. */
  method AccessPayload(pages: map<nat, Ovfl>, local: seq<byte>, first: nat, nPayload: nat, usable: nat, offset0: nat,
                       amt0: nat, cache0: seq<nat>, validOvfl0: bool, ghost payload: seq<byte>)
    returns (buf: seq<byte>, cache: seq<nat>, validOvfl: bool)
    requires 4 < usable && |payload| == nPayload && local <= payload && offset0 + amt0 <= nPayload
    requires Holds(pages, first, payload[|local|..], usable - 4)
    requires validOvfl0 ==> CacheOk(cache0, pages, first, PageCount(nPayload - |local|, usable - 4))
    ensures buf == payload[offset0..offset0 + amt0]
    ensures validOvfl ==> CacheOk(cache, pages, first, PageCount(nPayload - |local|, usable - 4))
  {
    ghost var data, want := payload[|local|..], payload[offset0..offset0 + amt0];
    var offset, amt := offset0, amt0;
    buf, cache, validOvfl := [], cache0, validOvfl0;
    assert local == payload[..|local|];
    if offset < |local| {
      var a := amt;
      if a + offset > |local| {
        a := |local| - offset;
      }
      buf := local[offset..offset + a];
      offset, amt := 0, amt - a;
    } else {
      offset := offset - |local|;
    }
    if amt > 0 {
      assert want == buf + data[offset..offset + amt];
      buf, cache :=
        ReadChain(pages, cache, validOvfl, usable - 4, nPayload - |local|, offset, amt, first, buf, data, want);
      validOvfl := true;
    }
  }

  // ----- building

  /** A chain under construction: all its pages but the last are full. */
  ghost predicate OpenChain(pages: map<nat, Ovfl>, pgs: seq<nat>, data: seq<byte>, sz: nat)
    decreases |pgs|
  {
    && pgs != [] && pgs[0] in pages && pgs[0] != 0
    && if |pgs| == 1 then pages[pgs[0]] == Ovfl(0, data) && |data| <= sz
       else |data| >= sz && pages[pgs[0]] == Ovfl(pgs[1], data[..sz]) && OpenChain(pages, pgs[1..], data[sz..], sz)
  }

  /** The room left on the last page. */
  ghost function Left(pgs: seq<nat>, data: seq<byte>, sz: nat): int
    decreases |pgs|
  {
    if |pgs| <= 1 || |data| < sz then sz - |data| else Left(pgs[1..], data[sz..], sz)
  }

  ghost predicate Distinct(pgs: seq<nat>) {
    forall i, j :: 0 <= i < j < |pgs| ==> pgs[i] != pgs[j]
  }

  lemma {:induction false} LastOpen(pages: map<nat, Ovfl>, pgs: seq<nat>, data: seq<byte>, sz: nat)
    requires OpenChain(pages, pgs, data, sz)
    ensures pgs[|pgs| - 1] in pages && pages[pgs[|pgs| - 1]].next == 0
    decreases |pgs|
  {
    if |pgs| <= 1 {
    } else {
      LastOpen(pages, pgs[1..], data[sz..], sz);
    }
  }

  lemma {:induction false} LeftAfter(pages: map<nat, Ovfl>, pgs: seq<nat>, data: seq<byte>, sz: nat, x: seq<byte>)
    requires OpenChain(pages, pgs, data, sz)
    ensures Left(pgs, data + x, sz) == Left(pgs, data, sz) - |x|
    decreases |pgs|
  {
    if |pgs| <= 1 {
    } else {
      LeftAfter(pages, pgs[1..], data[sz..], sz, x);
      assert (data + x)[sz..] == data[sz..] + x;
    }
  }

  lemma {:induction false} Written(pages: map<nat, Ovfl>, pages': map<nat, Ovfl>, last: nat, pgs: seq<nat>,
                                   data: seq<byte>, sz: nat, x: seq<byte>)
    requires OpenChain(pages, pgs, data, sz) && Distinct(pgs) && |x| <= Left(pgs, data, sz) && last == pgs[|pgs| - 1]
    requires last in pages
    requires pages' == pages[last := Ovfl(0, pages[last].content + x)]
    ensures OpenChain(pages', pgs, data + x, sz)
    decreases |pgs|
  {
    if |pgs| <= 1 {
    } else {
      var rest, data' := pgs[1..], data + x;
      assert rest[|rest| - 1] == last && pgs[0] != last;
      Written(pages, pages', last, rest, data[sz..], sz, x);
      assert data'[sz..] == data[sz..] + x;
      assert data'[..sz] == data[..sz];
    }
  }

  lemma {:induction false} PageAdded(pages: map<nat, Ovfl>, pgs: seq<nat>, data: seq<byte>, sz: nat, q: nat)
    requires OpenChain(pages, pgs, data, sz) && Distinct(pgs) && Left(pgs, data, sz) == 0 && q !in pgs && q != 0
    requires sz > 0
    ensures var last := pgs[|pgs| - 1];
      && last in pages
      && OpenChain(pages[last := Ovfl(q, pages[last].content)][q := Ovfl(0, [])], pgs + [q], data, sz)
      && Left(pgs + [q], data, sz) == sz
    decreases |pgs|
  {
    var last := pgs[|pgs| - 1];
    if |pgs| > 1 {
      PageAdded(pages, pgs[1..], data[sz..], sz, q);
      assert pgs[1..][|pgs| - 2] == last && pgs[0] != last;
      assert (pgs + [q])[1..] == pgs[1..] + [q];
    } else {
      assert data[..sz] == data && data[sz..] == [];
      assert (pgs + [q])[1..] == [q];
    }
  }

  lemma {:induction false} Finished(pages: map<nat, Ovfl>, pgs: seq<nat>, data: seq<byte>, sz: nat)
    requires OpenChain(pages, pgs, data, sz) && Left(pgs, data, sz) < sz && sz > 0
    ensures Holds(pages, pgs[0], data, sz)
    decreases |pgs|
  {
    if |pgs| <= 1 {
    } else {
      Finished(pages, pgs[1..], data[sz..], sz);
      NotEmpty(pages, pgs[1..], data[sz..], sz);
    }
  }

  lemma {:induction false} NotEmpty(pages: map<nat, Ovfl>, pgs: seq<nat>, data: seq<byte>, sz: nat)
    requires OpenChain(pages, pgs, data, sz) && Left(pgs, data, sz) < sz && sz > 0
    ensures data != []
    decreases |pgs|
  {
  }

  function Zeros(n: nat): seq<byte> {
    seq(n, i => 0)
  }

  /** The loop of fillInCell: `local` has been written to the cell and the rest to the pages pgs. */
  ghost predicate Filling(pages0: map<nat, Ovfl>, pages: map<nat, Ovfl>, payload: seq<byte>, nLocal: nat, sz: nat,
                          local: seq<byte>, pgs: seq<nat>, done: nat, spaceLeft: nat) {
    && sz > 0 && nLocal <= |payload| && done <= |payload| && Distinct(pgs) && spaceLeft <= |payload| + sz
    && (forall p :: p in pages0 ==> p in pages && pages[p] == pages0[p] && p !in pgs)
    && if pgs == [] then local == payload[..done] && done + spaceLeft == nLocal && pages == pages0
       else local == payload[..nLocal] && nLocal <= done && OpenChain(pages, pgs, payload[nLocal..done], sz)
            && Left(pgs, payload[nLocal..done], sz) == spaceLeft
  }

  lemma FillMore(pages0: map<nat, Ovfl>, pages: map<nat, Ovfl>, payload: seq<byte>, nLocal: nat, sz: nat,
                 local: seq<byte>, pgs: seq<nat>, done: nat, spaceLeft: nat, n: nat)
    requires Filling(pages0, pages, payload, nLocal, sz, local, pgs, done, spaceLeft) && n <= spaceLeft
    requires done + n <= |payload|
    ensures pgs != [] ==> pgs[|pgs| - 1] in pages
    ensures var x := payload[done..done + n];
      if pgs == [] then Filling(pages0, pages, payload, nLocal, sz, local + x, pgs, done + n, spaceLeft - n)
      else var last := pgs[|pgs| - 1];
        Filling(pages0, pages[last :=
          Ovfl(0, pages[last].content + x)], payload, nLocal, sz, local, pgs, done + n, spaceLeft - n)
  {
    var x := payload[done..done + n];
    if pgs == [] {
      assert payload[..done] + x == payload[..done + n];
    } else {
      var last := pgs[|pgs| - 1];
      LastOpen(pages, pgs, payload[nLocal..done], sz);
      LeftAfter(pages, pgs, payload[nLocal..done], sz, x);
      Written(pages, pages[last := Ovfl(0, pages[last].content + x)], last, pgs, payload[nLocal..done], sz, x);
      assert payload[nLocal..done] + x == payload[nLocal..done + n];
    }
  }

  lemma FillNext(pages0: map<nat, Ovfl>, pages: map<nat, Ovfl>, payload: seq<byte>, nLocal: nat, sz: nat,
                 local: seq<byte>, pgs: seq<nat>, done: nat, q: nat)
    requires Filling(pages0, pages, payload, nLocal, sz, local, pgs, done, 0) && q !in pgs && q !in pages0 && q != 0
    ensures pgs != [] ==> pgs[|pgs| - 1] in pages
    ensures var pages1 := if pgs == [] then pages else pages[pgs[|pgs| - 1] := Ovfl(q, pages[pgs[|pgs| - 1]].content)];
      Filling(pages0, pages1[q := Ovfl(0, [])], payload, nLocal, sz, local, pgs + [q], done, sz)
  {
    if pgs == [] {
      assert payload[nLocal..done] == [];
    } else {
      PageAdded(pages, pgs, payload[nLocal..done], sz, q);
    }
  }

  /** At most n bytes of what is left of the source: data first, then zeros. */
  method TakeSome(pSrc: seq<byte>, n: nat, ghost pData: seq<byte>, ghost nZero: nat, ghost payload: seq<byte>,
                  ghost done: nat)
    returns (x: seq<byte>, pSrc': seq<byte>)
    requires payload == pData + Zeros(nZero)
    requires 0 < n && done + n <= |payload| && pSrc == if done <= |pData| then pData[done..] else []
    ensures 0 < |x| <= n && x == payload[done..done + |x|]
    ensures pSrc' == if done + |x| <= |pData| then pData[done + |x|..] else []
  {
    if |pSrc| >= n {
      x, pSrc' := pSrc[..n], pSrc[n..];
    } else if |pSrc| > 0 {
      x, pSrc' := pSrc, [];
    } else {
      x, pSrc' := Zeros(n), [];
    }
  }

  /** x written to where writing stands. */
  method Put(x: seq<byte>, local0: seq<byte>, pages1: map<nat, Ovfl>, pgs: seq<nat>, ghost pages0: map<nat, Ovfl>,
             ghost payload: seq<byte>, ghost nLocal: nat, ghost sz: nat, ghost done: nat, ghost spaceLeft: nat)
    returns (local: seq<byte>, pages: map<nat, Ovfl>)
    requires Filling(pages0, pages1, payload, nLocal, sz, local0, pgs, done, spaceLeft) && |x| <= spaceLeft
    requires done + |x| <= |payload|
    requires x == payload[done..done + |x|]
    ensures Filling(pages0, pages, payload, nLocal, sz, local, pgs, done + |x|, spaceLeft - |x|)
  {
    FillMore(pages0, pages1, payload, nLocal, sz, local0, pgs, done, spaceLeft, |x|);
    local, pages := local0, pages1;
    if pgs == [] {
      local := local + x;
    } else {
      var last := pgs[|pgs| - 1];
      pages := pages[last := Ovfl(0, pages[last].content + x)];
    }
  }

  /** Another overflow page, linked from the one before, or from the cell. */
  method NewPage(q: nat, pages1: map<nat, Ovfl>, pgs1: seq<nat>, ghost local: seq<byte>, ghost pages0: map<nat, Ovfl>,
                 ghost payload: seq<byte>, ghost nLocal: nat, ghost sz: nat, ghost done: nat)
    returns (pages: map<nat, Ovfl>, pgs: seq<nat>)
    requires Filling(pages0, pages1, payload, nLocal, sz, local, pgs1, done, 0) && q !in pgs1 && q !in pages0 && q != 0
    ensures pgs == pgs1 + [q] && Filling(pages0, pages, payload, nLocal, sz, local, pgs, done, sz)
  {
    FillNext(pages0, pages1, payload, nLocal, sz, local, pgs1, done, q);
    pages := pages1;
    if pgs1 != [] {
      var last := pgs1[|pgs1| - 1];
      pages := pages[last := Ovfl(q, pages[last].content)];
    }
    pages := pages[q := Ovfl(0, [])];
    pgs := pgs1 + [q];
  }

  /** One round of the loop: something is written, and if there is more and no room, there is
      another page. */
  method SpillRound(nPayload: nat, pSrc0: seq<byte>, spaceLeft0: nat, local0: seq<byte>, pages1: map<nat, Ovfl>,
                    pgs1: seq<nat>, sz: nat, alloc: seq<nat>, ghost pData: seq<byte>, ghost nZero: nat,
                    ghost payload: seq<byte>, ghost nLocal: nat, ghost pages0: map<nat, Ovfl>)
    returns (n: nat, pSrc: seq<byte>, spaceLeft: nat, local: seq<byte>, pages: map<nat, Ovfl>, pgs: seq<nat>)
    requires Distinct(alloc) && (forall i :: 0 <= i < |alloc| ==> alloc[i] != 0 && alloc[i] !in pages0)
    requires |alloc| >= |payload|
    requires Spilling(pData, payload, nLocal, sz, pages0, alloc, nPayload, pSrc0, spaceLeft0, local0, pages1, pgs1)
    requires nPayload > 0 && nLocal < |payload| && payload == pData + Zeros(nZero)
    ensures 0 < n <= nPayload
    ensures Spilling(pData, payload, nLocal, sz, pages0, alloc, nPayload - n, pSrc, spaceLeft, local, pages, pgs)
  {
    ghost var done := |payload| - nPayload;
    var x;
    x, pSrc := TakeSome(pSrc0, if nPayload > spaceLeft0 then spaceLeft0 else nPayload, pData, nZero, payload, done);
    local, pages := Put(x, local0, pages1, pgs1, pages0, payload, nLocal, sz, done, spaceLeft0);
    n := |x|;
    pages, pgs, spaceLeft :=
      MakeSpace(nPayload - n, spaceLeft0 - n, pages, pgs1, sz, alloc, local, payload, nLocal, pages0);
  }

  /** If there is more to write and no room, there is another page. */
  method MakeSpace(nPayload: nat, spaceLeft0: nat, pages1: map<nat, Ovfl>, pgs1: seq<nat>, sz: nat, alloc: seq<nat>,
                   ghost local: seq<byte>, ghost payload: seq<byte>, ghost nLocal: nat, ghost pages0: map<nat, Ovfl>)
    returns (pages: map<nat, Ovfl>, pgs: seq<nat>, spaceLeft: nat)
    requires Distinct(alloc) && (forall i :: 0 <= i < |alloc| ==> alloc[i] != 0 && alloc[i] !in pages0)
    requires nPayload <= |payload|
    requires Filling(pages0, pages1, payload, nLocal, sz, local, pgs1, |payload| - nPayload, spaceLeft0)
    requires |pgs1| < |payload| - nPayload + 1 <= |alloc| + 1 && pgs1 == alloc[..|pgs1|]
    requires nPayload > 0 ==> |pgs1| < |alloc|
    ensures Filling(pages0, pages, payload, nLocal, sz, local, pgs, |payload| - nPayload, spaceLeft)
    ensures if nPayload > 0 && spaceLeft0 == 0 then |pgs| == |pgs1| + 1 && spaceLeft == sz && pgs == alloc[..|pgs|]
            else pgs == pgs1 && spaceLeft == spaceLeft0
  {
    pages, pgs, spaceLeft := pages1, pgs1, spaceLeft0;
    if nPayload > 0 && spaceLeft == 0 {
      Unused(alloc, |pgs|);
      pages, pgs := NewPage(alloc[|pgs|], pages, pgs, local, pages0, payload, nLocal, sz, |payload| - nPayload);
      spaceLeft := sz;
    }
  }

  /** The state of the loop with nPayload bytes to go. */
  ghost predicate Spilling(pData: seq<byte>, payload: seq<byte>, nLocal: nat, sz: nat, pages0: map<nat, Ovfl>,
                           alloc: seq<nat>, nPayload: nat, pSrc: seq<byte>, spaceLeft: nat, local: seq<byte>,
                           pages: map<nat, Ovfl>, pgs: seq<nat>) {
    && nPayload <= |payload| && (nPayload > 0 ==> spaceLeft > 0)
    && Filling(pages0, pages, payload, nLocal, sz, local, pgs, |payload| - nPayload, spaceLeft)
    && pSrc == (if |payload| - nPayload <= |pData| then pData[|payload| - nPayload..] else [])
    && |pgs| <= |payload| - nPayload && |pgs| <= |alloc| && pgs == alloc[..|pgs|]
    && (pgs != [] ==> spaceLeft <= sz)
    && (nPayload == 0 ==> pgs != [] && spaceLeft < sz)
  }

  /** Write the local part of a payload that does not fit, and the overflow chain: pData, then
      nZero zeros.  `alloc` are the pages that allocateBtreePage hands out. */
  method Spill(pData: seq<byte>, nZero: nat, nLocal: nat, sz: nat, pages0: map<nat, Ovfl>, alloc: seq<nat>)
    returns (local: seq<byte>, pages: map<nat, Ovfl>, first: nat)
    requires 0 < nLocal < |pData| + nZero && 0 < sz
    requires Distinct(alloc) && forall i :: 0 <= i < |alloc| ==> alloc[i] != 0 && alloc[i] !in pages0
    requires |alloc| >= |pData| + nZero
    ensures var payload := pData + Zeros(nZero);
      local == payload[..nLocal] && first in alloc && Holds(pages, first, payload[nLocal..], sz)
    ensures forall p :: p in pages0 ==> p in pages && pages[p] == pages0[p]
  {
    var nPayload: nat, pSrc, pgs: seq<nat>, spaceLeft: nat := |pData| + nZero, pData, [], nLocal;
    ghost var payload := pData + Zeros(nZero);
    local, pages := [], pages0;
    while nPayload > 0
      invariant Spilling(pData, payload, nLocal, sz, pages0, alloc, nPayload, pSrc, spaceLeft, local, pages, pgs)
    {
      var n;
      n, pSrc, spaceLeft, local, pages, pgs :=
        SpillRound(nPayload, pSrc, spaceLeft, local, pages, pgs, sz, alloc, pData, nZero, payload, nLocal, pages0);
      nPayload := nPayload - n;
    }
    first := pgs[0];
    assert payload[nLocal..|payload|] == payload[nLocal..];
    Finished(pages, pgs, payload[nLocal..], sz);
  }

  lemma Unused(alloc: seq<nat>, n: nat)
    requires Distinct(alloc) && n < |alloc|
    ensures alloc[n] !in alloc[..n] && alloc[..n + 1] == alloc[..n] + [alloc[n]]
  {
  }

  // ----- the cell

  function HeaderOf(k: Kind, child: seq<byte>, nPayload: nat, nKey: nat): seq<byte> {
    child + Encode(nPayload) + if k.TableLeaf? then Encode(nKey) else []
  }

  /** What a header parses to, whatever follows. */
  lemma HeaderParses(usable: nat, k: Kind, child: seq<byte>, nPayload: nat, nKey: nat, rest: seq<byte>)
    requires PageSizeOk(usable) && !k.TableInterior? && |child| == ChildSize(k) && nPayload < 0x8000_0000
    requires nKey < 0x1_0000_0000_0000_0000
    ensures var h := HeaderOf(k, child, nPayload, nKey);
      Parse(usable, k, h + rest) ==
        Info(if k.TableLeaf? then nKey else nPayload, nPayload, |h|,
             LocalOf(usable, k, nPayload), SizeOf(usable, k, nPayload, |h|))
  {
    var h := HeaderOf(k, child, nPayload, nKey);
    var c := h + rest;
    var tail := (if k.TableLeaf? then Encode(nKey) else []) + rest;
    assert Drop(c, ChildSize(k)) == Encode(nPayload) + tail;
    RoundTrip(nPayload, tail);
    if k.TableLeaf? {
      assert Drop(c, ChildSize(k) + |Encode(nPayload)|) == Encode(nKey) + rest;
      RoundTrip(nKey, rest);
    }
  }

  /** What a cell of an interior page of a table parses to: a child page and a key. */
  lemma InteriorParses(usable: nat, child: seq<byte>, nKey: nat, rest: seq<byte>)
    requires PageSizeOk(usable) && |child| == 4 && nKey < 0x1_0000_0000_0000_0000
    ensures Parse(usable, TableInterior, child + Encode(nKey) + rest) ==
      Info(nKey, 0, 4 + |Encode(nKey)|, 0, 4 + |Encode(nKey)|)
  {
    assert Drop(child + Encode(nKey) + rest, 4) == Encode(nKey) + rest;
    RoundTrip(nKey, rest);
  }

  /** A cell of which `info` is true, with the overflow pages, stands for the key and the
      payload. */
  ghost predicate Stands(sz: nat, info: Info, cell: seq<byte>, nKey: nat, payload: seq<byte>, pages: map<nat, Ovfl>) {
    && info.nKey == nKey && info.nPayload == |payload| && info.nSize == |cell|
    && info.nLocal <= |payload| && info.nHeader + info.nLocal <= |cell|
    && cell[info.nHeader..info.nHeader + info.nLocal] == payload[..info.nLocal]
    && (info.nLocal < |payload| ==>
          && info.nHeader + info.nLocal + 4 == |cell|
          && Holds(pages, Get4(cell, info.nHeader + info.nLocal), payload[info.nLocal..], sz))
  }

  ghost predicate Represents(usable: nat, k: Kind, cell: seq<byte>, nKey: nat, payload: seq<byte>,
                             pages: map<nat, Ovfl>)
    requires PageSizeOk(usable)
  {
    Stands(usable - 4, Parse(usable, k, cell), cell, nKey, payload, pages)
  }

  /** A header, a local part, and the page number of the overflow chain if there is one. */
  function Spilled(h: seq<byte>, local: seq<byte>, first: nat): seq<byte> {
    Put4(h + local + [0, 0, 0, 0], |h + local|, first)
  }

  function Padded(c: seq<byte>): seq<byte> {
    if |c| < 4 then c + Zeros(4 - |c|) else c
  }

  lemma SpilledStands(sz: nat, h: seq<byte>, local: seq<byte>, first: nat, info: Info, nKey: nat, payload: seq<byte>,
                      pages: map<nat, Ovfl>)
    requires local <= payload && |local| < |payload| && first < 0x1_0000_0000
    requires Holds(pages, first, payload[|local|..], sz)
    requires info == Info(nKey, |payload|, |h|, |local|, |h| + |local| + 4)
    ensures Stands(sz, info, Spilled(h, local, first), nKey, payload, pages) && h <= Spilled(h, local, first)
  {
    var cell := Spilled(h, local, first);
    GetPut4(h + local + [0, 0, 0, 0], |h + local|, first);
    assert cell[|h|..|h| + |local|] == local;
    assert cell[..|h|] == h;
  }

  lemma PaddedStands(sz: nat, h: seq<byte>, info: Info, nKey: nat, payload: seq<byte>, pages: map<nat, Ovfl>)
    requires info == Info(nKey, |payload|, |h|, |payload|, |Padded(h + payload)|)
    ensures Stands(sz, info, Padded(h + payload), nKey, payload, pages) && h <= Padded(h + payload)
  {
    var cell := Padded(h + payload);
    assert cell[|h|..|h| + |payload|] == payload && payload[..|payload|] == payload;
    assert cell[..|h|] == h;
  }

  /** A cell that begins with the header parses as the header says. */
  lemma CellParses(usable: nat, k: Kind, child: seq<byte>, nPayload: nat, nKey: nat, h: seq<byte>, cell: seq<byte>)
    requires PageSizeOk(usable) && !k.TableInterior? && |child| == ChildSize(k) && nPayload < 0x8000_0000
    requires nKey < 0x1_0000_0000_0000_0000
    requires h == HeaderOf(k, child, nPayload, nKey) && h <= cell
    ensures Parse(usable, k, cell) ==
      Info(if k.TableLeaf? then nKey else nPayload, nPayload, |h|,
           LocalOf(usable, k, nPayload), SizeOf(usable, k, nPayload, |h|))
  {
    assert cell == h + cell[|h|..];
    HeaderParses(usable, k, child, nPayload, nKey, cell[|h|..]);
  }

  lemma Replace(usable: nat, k: Kind, cell: seq<byte>, info: Info, nKey: nat, payload: seq<byte>, pages: map<nat, Ovfl>)
    requires PageSizeOk(usable) && Parse(usable, k, cell) == info
    requires Stands(usable - 4, info, cell, nKey, payload, pages)
    ensures Represents(usable, k, cell, nKey, payload, pages)
  {
  }

  method PutHeader(k: Kind, child: seq<byte>, nPayload: nat, nKey: nat) returns (h: seq<byte>)
    requires nPayload < 0x8000_0000 && nKey < 0x1_0000_0000_0000_0000
    ensures h == HeaderOf(k, child, nPayload, nKey)
  {
    var size := PutVarint(nPayload);
    h := child + size;
    if k.TableLeaf? {
      var key := PutVarint(nKey);
      h := h + key;
    }
  }

  /** fillInCell: the cell parses back to the key and the payload's size, has the local part in
      it, and the chain it leads to has the rest. */
  method FillInCell(usable: nat, k: Kind, child: seq<byte>, nKey: nat, pData: seq<byte>, nZero: nat,
                    pages0: map<nat, Ovfl>, alloc: seq<nat>)
    returns (cell: seq<byte>, pages: map<nat, Ovfl>)
    requires PageSizeOk(usable) && !k.TableInterior? && |child| == ChildSize(k) && nKey < 0x1_0000_0000_0000_0000
    requires |pData| + nZero < 0x8000_0000 && (!k.TableLeaf? ==> nZero == 0)
    requires Distinct(alloc) && forall i :: 0 <= i < |alloc| ==> 0 < alloc[i] < 0x1_0000_0000 && alloc[i] !in pages0
    requires |alloc| >= |pData| + nZero
    ensures Represents(usable, k, cell, if k.TableLeaf? then nKey else |pData|, pData + Zeros(nZero), pages)
    ensures var h := child + Encode(|pData| + nZero) + if k.TableLeaf? then Encode(nKey) else [];
      var n := |h| + |pData| + nZero;
      && h <= cell
      && |cell| == if |pData| + nZero > MaxLocal(usable, k) then |h| + LocalOf(usable, k, |pData| + nZero) + 4
                   else if n < 4 then 4 else n
    ensures forall p :: p in pages0 ==> p in pages && pages[p] == pages0[p]
  {
    var nPayload := |pData| + nZero;
    var h := PutHeader(k, child, nPayload, nKey);
    ghost var info;
    cell, pages, info := FillAfter(usable, k, h, if k.TableLeaf? then nKey else nPayload, pData, nZero, pages0, alloc);
    CellParses(usable, k, child, nPayload, nKey, h, cell);
    Replace(usable, k, cell, info, info.nKey, pData + Zeros(nZero), pages);
  }

  /** The payload part of fillInCell, after the header h. */
  method FillAfter(usable: nat, k: Kind, h: seq<byte>, ghost key: nat, pData: seq<byte>, nZero: nat,
                   pages0: map<nat, Ovfl>, alloc: seq<nat>)
    returns (cell: seq<byte>, pages: map<nat, Ovfl>, ghost info: Info)
    requires PageSizeOk(usable)
    requires Distinct(alloc) && forall i :: 0 <= i < |alloc| ==> 0 < alloc[i] < 0x1_0000_0000 && alloc[i] !in pages0
    requires |alloc| >= |pData| + nZero
    ensures h <= cell && Stands(usable - 4, info, cell, key, pData + Zeros(nZero), pages)
    ensures info ==
      Info(key, |pData| + nZero, |h|, LocalOf(usable, k, |pData| + nZero), SizeOf(usable, k, |pData| + nZero, |h|))
    ensures forall p :: p in pages0 ==> p in pages && pages[p] == pages0[p]
  {
    ghost var payload := pData + Zeros(nZero);
    var nPayload := |pData| + nZero;
    var n := LocalOf(usable, k, nPayload);
    SizeCases(usable, k, nPayload, |h|);
    info := Info(key, nPayload, |h|, n, SizeOf(usable, k, nPayload, |h|));
    pages := pages0;
    if nPayload <= MaxLocal(usable, k) {
      assert h + pData + Zeros(nZero) == h + payload;
      cell := Padded(h + pData + Zeros(nZero));
      PaddedStands(usable - 4, h, info, key, payload, pages);
    } else {
      var local, first;
      local, pages, first := Spill(pData, nZero, n, usable - 4, pages0, alloc);
      cell := Spilled(h, local, first);
      SpilledStands(usable - 4, h, local, first, info, key, payload, pages);
    }
  }

  lemma SizeCases(usable: nat, k: Kind, nPayload: nat, nHeader: nat)
    requires PageSizeOk(usable)
    ensures var n := LocalOf(usable, k, nPayload);
      if nPayload <= MaxLocal(usable, k) then
        n == nPayload && SizeOf(usable, k, nPayload, nHeader) == (if n + nHeader < 4 then 4 else n + nHeader)
      else 0 < n < nPayload && SizeOf(usable, k, nPayload, nHeader) == n + nHeader + 4
  {
  }

  /** Reading from a cell of which `info` is true. */
  method ReadCell(usable: nat, info: Info, cell: seq<byte>, pages: map<nat, Ovfl>, offset: nat, amt: nat,
                  cache0: seq<nat>, validOvfl0: bool, ghost nKey: nat, ghost payload: seq<byte>)
    returns (buf: seq<byte>, cache: seq<nat>, validOvfl: bool)
    requires 4 < usable && Stands(usable - 4, info, cell, nKey, payload, pages) && offset + amt <= |payload|
    requires validOvfl0 ==> CacheFor(usable, info, cell, pages, cache0)
    ensures buf == payload[offset..offset + amt] && (validOvfl ==> CacheFor(usable, info, cell, pages, cache))
  {
    var local := cell[info.nHeader..info.nHeader + info.nLocal];
    var first := if info.nLocal < info.nPayload then Get4(cell, info.nHeader + info.nLocal) else 0;
    assert payload[|payload|..] == [];
    buf, cache, validOvfl :=
      AccessPayload(pages, local, first, info.nPayload, usable, offset, amt, cache0, validOvfl0, payload);
  }

  /** The cursor's cache of the cell's overflow pages. */
  ghost predicate CacheFor(usable: nat, info: Info, cell: seq<byte>, pages: map<nat, Ovfl>, cache: seq<nat>)
    requires 4 < usable
  {
    && info.nLocal <= info.nPayload && (info.nLocal < info.nPayload ==> info.nHeader + info.nLocal + 4 <= |cell|)
    && var first := if info.nLocal < info.nPayload then Get4(cell, info.nHeader + info.nLocal) else 0;
       CacheOk(cache, pages, first, PageCount(info.nPayload - info.nLocal, usable - 4))
  }

  /** Any part of a payload is read back from the cell that was built for it. */
  method ReadBack(usable: nat, k: Kind, cell: seq<byte>, pages: map<nat, Ovfl>, offset: nat, amt: nat, cache0: seq<nat>,
                  validOvfl0: bool, ghost nKey: nat, ghost payload: seq<byte>)
    returns (buf: seq<byte>, key: nat, cache: seq<nat>, validOvfl: bool)
    requires PageSizeOk(usable) && Represents(usable, k, cell, nKey, payload, pages) && offset + amt <= |payload|
    requires validOvfl0 ==> CacheFor(usable, Parse(usable, k, cell), cell, pages, cache0)
    ensures buf == payload[offset..offset + amt] && key == nKey
  {
    var info := ParseCell(usable, k, cell);
    key := info.nKey;
    buf, cache, validOvfl := ReadCell(usable, info, cell, pages, offset, amt, cache0, validOvfl0, nKey, payload);
  }
}
