/** B-trees as values: their entries in order, and where a path from the root leads. */
module BtreeTree {

  /** A page with its subtrees.  In a table b-tree the keys of interior pages only guide the
      search; in an index b-tree they are entries. */
  datatype Tree = Leaf(keys: seq<int>) | Node(keys: seq<int>, children: seq<Tree>)

  /** The entries of a tree, in order, and those before its child i. */
  ghost function Entries(t: Tree, intKey: bool): seq<int>
    decreases t, |t.keys| + 1
  {
    if t.Leaf? then t.keys
    else if |t.children| != |t.keys| + 1 then []
    else Before(t, |t.keys|, intKey) + Entries(t.children[|t.keys|], intKey)
  }

  ghost function Before(t: Tree, i: nat, intKey: bool): seq<int>
    requires t.Node? && |t.children| == |t.keys| + 1 && i <= |t.keys|
    decreases t, i
  {
    if i == 0 then []
    else Before(t, i - 1, intKey) + Entries(t.children[i - 1], intKey) + if intKey then [] else [t.keys[i - 1]]
  }

  /** Pages have cells; only the root may have none, and then at most one child. */
  ghost predicate WellFormed(t: Tree, isRoot: bool)
    decreases t
  {
    && (t.keys != [] || isRoot)
    && (t.Node? ==> |t.children| == |t.keys| + 1)
    && (t.Node? ==> forall i :: 0 <= i < |t.children| ==> WellFormed(t.children[i], false))
  }

  lemma {:induction false} SomeEntry(t: Tree, intKey: bool)
    requires WellFormed(t, false)
    ensures Entries(t, intKey) != []
    decreases t
  {
    if t.Leaf? {
    } else {
      assert WellFormed(t.children[|t.keys|], false);
      SomeEntry(t.children[|t.keys|], intKey);
    }
  }

  lemma SubSlice(e: seq<int>, b0: nat, c0: seq<int>, b: nat, n: nat)
    requires b0 + |c0| <= |e| && e[b0..b0 + |c0|] == c0 && b + n <= |c0|
    ensures e[b0 + b..b0 + b + n] == c0[b..b + n]
  {
    var x, y := e[b0 + b..b0 + b + n], c0[b..b + n];
    forall k | 0 <= k < n ensures x[k] == y[k] {
      assert e[b0..b0 + |c0|][b + k] == e[b0 + b + k];
    }
  }

  /** Before is a growing beginning of the entries. */
  lemma {:induction false} BeforeIsPrefix(t: Tree, i: nat, intKey: bool)
    requires t.Node? && |t.children| == |t.keys| + 1 && i <= |t.keys|
    ensures Before(t, i, intKey) <= Entries(t, intKey)
    ensures i < |t.keys| ==> Before(t, i + 1, intKey) <= Entries(t, intKey)
    decreases |t.keys| - i
  {
    if i == |t.keys| {
    } else {
      BeforeIsPrefix(t, i + 1, intKey);
    }
  }

  /** What a child's entries are among the entries of its parent. */
  lemma ChildEntries(t: Tree, i: nat, intKey: bool)
    requires t.Node? && |t.children| == |t.keys| + 1 && i <= |t.keys|
    ensures var b, c, e := |Before(t, i, intKey)|, Entries(t.children[i], intKey), Entries(t, intKey);
      b + |c| <= |e| && e[b..b + |c|] == c
    ensures i == |t.keys| ==> |Before(t, i, intKey)| + |Entries(t.children[i], intKey)| == |Entries(t, intKey)|
    ensures i < |t.keys| && !intKey ==>
      var b := |Before(t, i, intKey)| + |Entries(t.children[i], intKey)|;
      b < |Entries(t, intKey)| && Entries(t, intKey)[b] == t.keys[i]
  {
    BeforeIsPrefix(t, i, intKey);
    var b, c, e := Before(t, i, intKey), Entries(t.children[i], intKey), Entries(t, intKey);
    var b' := if i < |t.keys| then Before(t, i + 1, intKey) else e;
    assert b + c <= b' <= e;
    assert e[|b|..|b| + |c|] == (b + c)[|b|..|b| + |c|] == c;
    if i < |t.keys| && !intKey {
      assert b'[|b| + |c|] == t.keys[i];
    }
  }

  // ----- order

  ghost predicate Ascending(s: seq<int>) {
    forall i, j :: 0 <= i < j < |s| ==> s[i] < s[j]
  }

  /** Entries of child i lie between the keys next to it. */
  ghost predicate Between(t: Tree, i: nat, intKey: bool)
    requires t.Node? && |t.children| == |t.keys| + 1 && i <= |t.keys|
  {
    forall x :: x in Entries(t.children[i], intKey) ==>
      (i > 0 ==> t.keys[i - 1] < x) && (i < |t.keys| ==> if intKey then x <= t.keys[i] else x < t.keys[i])
  }

  ghost predicate Ordered(t: Tree, intKey: bool)
    decreases t
  {
    && Ascending(t.keys)
    && (t.Node? ==>
          && |t.children| == |t.keys| + 1
          && forall i :: 0 <= i < |t.children| ==> Ordered(t.children[i], intKey) && Between(t, i, intKey))
  }

  lemma {:induction false} BeforeLess(t: Tree, i: nat, intKey: bool, key: int)
    requires t.Node? && Ordered(t, intKey) && i <= |t.keys| && (i > 0 ==> t.keys[i - 1] < key)
    ensures forall x :: x in Before(t, i, intKey) ==> x < key
    decreases i
  {
    if i == 0 {
    } else {
      assert Between(t, i - 1, intKey);
      assert i > 1 ==> t.keys[i - 2] < t.keys[i - 1];
      BeforeLess(t, i - 1, intKey, key);
    }
  }

  /** The entries after child i, up to child j. */
  lemma {:induction false} AfterGreater(t: Tree, i: nat, j: nat, intKey: bool, key: int, p: nat)
    requires t.Node? && Ordered(t, intKey) && i < j <= |t.keys|
    requires if intKey then key <= t.keys[i] else key < t.keys[i]
    requires |Before(t, i, intKey)| + |Entries(t.children[i], intKey)| <= p < |Before(t, j, intKey)|
    ensures Before(t, j, intKey)[p] > key
    decreases j
  {
    var b, c := Before(t, j - 1, intKey), Entries(t.children[j - 1], intKey);
    assert t.keys[i] <= t.keys[j - 1];
    if p < |b| {
      BeforeGrows(t, i, j - 1, intKey);
      AfterGreater(t, i, j - 1, intKey, key, p);
    } else if p < |b| + |c| {
      assert Between(t, j - 1, intKey) && c[p - |b|] in c;
      BeforeGrows(t, i, j - 1, intKey);
      assert i < j - 1 && t.keys[i] <= t.keys[j - 2];
    }
  }

  lemma {:induction false} BeforeGrows(t: Tree, i: nat, j: nat, intKey: bool)
    requires t.Node? && |t.children| == |t.keys| + 1 && i <= j <= |t.keys|
    ensures |Before(t, i, intKey)| <= |Before(t, j, intKey)|
    ensures i < j ==> |Before(t, i, intKey)| + |Entries(t.children[i], intKey)| <= |Before(t, j, intKey)|
    decreases j
  {
    if i == j {
    } else {
      BeforeGrows(t, i, j - 1, intKey);
    }
  }

  /** The entries after child i. */
  lemma AllAfter(t: Tree, i: nat, intKey: bool, key: int)
    requires t.Node? && Ordered(t, intKey) && i < |t.keys| && (if intKey then key <= t.keys[i] else key < t.keys[i])
    ensures forall p :: |Before(t, i, intKey)| + |Entries(t.children[i], intKey)| <= p < |Entries(t, intKey)| ==>
      Entries(t, intKey)[p] > key
  {
    var n := |t.keys|;
    var b, c, e := Before(t, n, intKey), Entries(t.children[n], intKey), Entries(t, intKey);
    forall p | |Before(t, i, intKey)| + |Entries(t.children[i], intKey)| <= p < |e| ensures e[p] > key {
      if p < |b| {
        AfterGreater(t, i, n, intKey, key, p);
      } else {
        assert Between(t, n, intKey) && t.keys[i] <= t.keys[n - 1] && c[p - |b|] in c;
      }
    }
  }

  // ----- paths

  datatype Frame = Frame(page: Tree, ix: nat)

  /** Each page on the path is the child of the page before that the index there says. */
  ghost predicate PathOk(root: Tree, path: seq<Frame>) {
    if |path| == 0 then false
    else if |path| == 1 then path[0].page == root
    else
      var p, n := path[|path| - 2], |path| - 1;
      && PathOk(root, path[..n])
      && p.page.Node? && |p.page.children| == |p.page.keys| + 1 && p.ix <= |p.page.keys|
      && path[n].page == p.page.children[p.ix]
  }

  /** How many entries come before those of the last page's subtree. */
  ghost function Base(root: Tree, path: seq<Frame>, intKey: bool): nat
    requires PathOk(root, path)
  {
    if |path| == 1 then 0
    else Base(root, path[..|path| - 1], intKey) + |Before(path[|path| - 2].page, path[|path| - 2].ix, intKey)|
  }

  ghost function Last(path: seq<Frame>): Frame
    requires path != []
  {
    path[|path| - 1]
  }

  /** The last page's entries are among those of the tree. */
  lemma {:induction false} Slice(root: Tree, path: seq<Frame>, intKey: bool)
    requires PathOk(root, path)
    ensures var b, c, e := Base(root, path, intKey), Entries(Last(path).page, intKey), Entries(root, intKey);
      b + |c| <= |e| && e[b..b + |c|] == c
    decreases |path|
  {
    if |path| > 1 {
      var up := path[..|path| - 1];
      Slice(root, up, intKey);
      var p := Last(up);
      ChildEntries(p.page, p.ix, intKey);
      var e, b0, c0 := Entries(root, intKey), Base(root, up, intKey), Entries(p.page, intKey);
      var b, c := |Before(p.page, p.ix, intKey)|, Entries(Last(path).page, intKey);
      SubSlice(e, b0, c0, b, |c|);
    } else {
      assert Entries(root, intKey)[0..|Entries(root, intKey)|] == Entries(root, intKey);
    }
  }

  lemma {:induction false} PathWellFormed(root: Tree, path: seq<Frame>)
    requires PathOk(root, path) && WellFormed(root, true)
    ensures WellFormed(Last(path).page, |path| == 1)
    decreases |path|
  {
    if |path| <= 1 {
    } else {
      PathWellFormed(root, path[..|path| - 1]);
    }
  }

  lemma {:induction false} PathOrdered(root: Tree, path: seq<Frame>, intKey: bool)
    requires PathOk(root, path) && Ordered(root, intKey)
    ensures Ordered(Last(path).page, intKey)
    decreases |path|
  {
    if |path| <= 1 {
    } else {
      PathOrdered(root, path[..|path| - 1], intKey);
    }
  }

  /** A path one page longer. */
  lemma Extended(root: Tree, path: seq<Frame>, ix: nat, intKey: bool)
    requires PathOk(root, path) && Last(path).page.Node? && |Last(path).page.children| == |Last(path).page.keys| + 1
    requires Last(path).ix <= |Last(path).page.keys|
    ensures var path' := path + [Frame(Last(path).page.children[Last(path).ix], ix)];
      PathOk(root, path') &&
      Base(root, path', intKey) == Base(root, path, intKey) + |Before(Last(path).page, Last(path).ix, intKey)|
  {
    var path' := path + [Frame(Last(path).page.children[Last(path).ix], ix)];
    assert path'[..|path|] == path;
  }

  /** Changing the index on the last page changes nothing before it. */
  lemma Reindexed(root: Tree, path: seq<Frame>, ix: nat, intKey: bool)
    requires PathOk(root, path)
    ensures var path' := path[|path| - 1 := Frame(Last(path).page, ix)];
      PathOk(root, path') && Base(root, path', intKey) == Base(root, path, intKey)
  {
    var path' := path[|path| - 1 := Frame(Last(path).page, ix)];
    if |path| > 1 {
      assert path'[..|path| - 1] == path[..|path| - 1];
    }
  }
}
