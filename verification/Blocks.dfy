/** Regions of a page: blocks that do not overlap, and what they leave uncovered. */
module Blocks {
  import opened Arithmetic

  datatype Block = Block(pos: nat, size: nat) {
    function End(): nat {
      pos + size
    }
  }

  predicate Apart(b: Block, c: Block) {
    b.End() <= c.pos || c.End() <= b.pos
  }

  predicate Within(b: Block, lo: nat, hi: nat) {
    lo <= b.pos && b.End() <= hi
  }

  ghost function Sum(bs: seq<Block>): (s: nat) {
    if bs == [] then 0 else bs[0].size + Sum(bs[1..])
  }

  lemma {:induction false} SumAppend(a: seq<Block>, b: seq<Block>)
    ensures Sum(a + b) == Sum(a) + Sum(b)
  {
    if a == [] {
      assert a + b == b;
    } else {
      assert (a + b)[1..] == a[1..] + b;
      SumAppend(a[1..], b);
    }
  }

  /** The sum with the block at position m taken out, or changed. */
  lemma SumWithout(bs: seq<Block>, m: nat)
    requires m < |bs|
    ensures Sum(bs) == Sum(bs[..m] + bs[m + 1..]) + bs[m].size
  {
    assert bs == bs[..m] + ([bs[m]] + bs[m + 1..]);
    SumAppend(bs[..m], [bs[m]] + bs[m + 1..]);
    assert ([bs[m]] + bs[m + 1..])[1..] == bs[m + 1..];
    SumAppend(bs[..m], bs[m + 1..]);
  }

  lemma SumOne(b: Block)
    ensures Sum([b]) == b.size
  {
    assert [b][1..] == [];
  }

  lemma {:induction false} SumSameSizes(a: seq<Block>, b: seq<Block>)
    requires |a| == |b| && forall i :: 0 <= i < |a| ==> a[i].size == b[i].size
    ensures Sum(a) == Sum(b)
  {
    if a == [] {
    } else {
      SumSameSizes(a[1..], b[1..]);
    }
  }

  /** Blocks that lie in [lo, hi) and do not overlap. */
  ghost predicate Disjoint(bs: seq<Block>, lo: nat, hi: nat) {
    && (forall i :: 0 <= i < |bs| ==> Within(bs[i], lo, hi))
    && (forall i, j :: 0 <= i < j < |bs| ==> ApartAt(bs, i, j))
  }

  ghost predicate ApartAt(bs: seq<Block>, i: nat, j: nat)
    requires i < |bs| && j < |bs|
  {
    Apart(bs[i], bs[j])
  }

  /** The bytes of [lo, hi) that belong to no block. */
  ghost function Uncovered(bs: seq<Block>, lo: nat, hi: nat): set<nat> {
    if bs == [] then Range(lo, hi) else Uncovered(bs[1..], lo, hi) - Range(bs[0].pos, bs[0].End())
  }

  lemma {:induction false} UncoveredMeans(bs: seq<Block>, lo: nat, hi: nat, x: nat)
    ensures x in Uncovered(bs, lo, hi) <==>
      lo <= x < hi && forall i :: 0 <= i < |bs| ==> !(bs[i].pos <= x < bs[i].End())
  {
    if bs == [] {
    } else {
      UncoveredMeans(bs[1..], lo, hi, x);
      assert forall i :: 0 < i < |bs| ==> bs[i] == bs[1..][i - 1];
    }
  }

  /** The blocks account for every byte exactly once: what is left over is what is uncovered. */
  lemma {:induction false} ExactCover(bs: seq<Block>, lo: nat, hi: nat)
    requires lo <= hi && Disjoint(bs, lo, hi)
    ensures |Uncovered(bs, lo, hi)| == hi - lo - Sum(bs)
  {
    if bs == [] {
    } else {
      var rest := bs[1..];
      forall i, j | 0 <= i < j < |rest| ensures ApartAt(rest, i, j) {
        assert ApartAt(bs, i + 1, j + 1);
      }
      ExactCover(rest, lo, hi);
      var first := Range(bs[0].pos, bs[0].End());
      forall x | x in first ensures x in Uncovered(rest, lo, hi) {
        UncoveredMeans(rest, lo, hi, x);
        forall i | 0 <= i < |rest| ensures !(rest[i].pos <= x < rest[i].End()) {
          assert ApartAt(bs, 0, i + 1);
        }
      }
      assert first <= Uncovered(rest, lo, hi);
    }
  }
}
