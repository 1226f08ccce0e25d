/** B-tree cursors: seeking, and stepping to the next and the previous entry. */
module CursorModel {
  import opened BtreeTree

  /** The place of the cursor's entry among the entries of the last page's subtree: an interior
      page's entry comes after the child before it. */
  ghost function Local(f: Frame, intKey: bool): nat
    requires f.page.Node? ==> |f.page.children| == |f.page.keys| + 1 && f.ix <= |f.page.keys|
  {
    if f.page.Leaf? then f.ix else |Before(f.page, f.ix, intKey)| + |Entries(f.page.children[f.ix], intKey)|
  }

  /** The cursor is on a cell; in a table b-tree, on a leaf. */
  ghost predicate OnEntry(root: Tree, path: seq<Frame>, intKey: bool) {
    && PathOk(root, path) && Last(path).ix < |Last(path).page.keys|
    && (Last(path).page.Node? ==> !intKey && |Last(path).page.children| == |Last(path).page.keys| + 1)
  }

  /** The number of the cursor's entry. */
  ghost function Rank(root: Tree, path: seq<Frame>, intKey: bool): nat
    requires OnEntry(root, path, intKey)
  {
    Base(root, path, intKey) + Local(Last(path), intKey)
  }

  /** The cursor's cell is the entry of that number. */
  lemma EntryAt(root: Tree, path: seq<Frame>, intKey: bool)
    requires OnEntry(root, path, intKey)
    ensures Rank(root, path, intKey) < |Entries(root, intKey)|
    ensures Entries(root, intKey)[Rank(root, path, intKey)] == Last(path).page.keys[Last(path).ix]
  {
    var f := Last(path);
    Slice(root, path, intKey);
    if f.page.Node? {
      ChildEntries(f.page, f.ix, intKey);
    }
    var e, b, c := Entries(root, intKey), Base(root, path, intKey), Entries(f.page, intKey);
    assert e[b..b + |c|][Local(f, intKey)] == c[Local(f, intKey)];
  }

  /** What is sought: the entries that compare equal, which lie between lo and hi.  A table is
      searched for one key; an index record may be a prefix that many entries share, or such that
      none counts as equal, and then lo is hi + 1. */
  datatype Target = Target(lo: int, hi: int) {
    predicate Ok() {
      lo <= hi + 1
    }

    predicate Has(x: int) {
      lo <= x <= hi
    }
  }

  /** A comparison with the record sought that goes from negative over zero to positive as
      entries ascend. */
  ghost predicate Monotone(e: seq<int>, cmp: int -> int) {
    forall i, j :: 0 <= i < j < |e| ==> (cmp(e[j]) <= 0 ==> cmp(e[i]) <= 0) && (cmp(e[j]) < 0 ==> cmp(e[i]) < 0)
  }

  /** Every such comparison is one with a target, whatever it says of equal prefixes. */
  lemma {:induction false} ComparisonIsTarget(e: seq<int>, cmp: int -> int) returns (key: Target)
    requires Ascending(e) && Monotone(e, cmp)
    ensures key.Ok() && forall x :: x in e ==> (cmp(x) < 0 <==> x < key.lo) && (cmp(x) > 0 <==> x > key.hi)
  {
    if e == [] {
      key := Target(0, 0);
    } else {
      var n := |e| - 1;
      var x := e[n];
      var k := ComparisonIsTarget(e[..n], cmp);
      var lo := if k.lo < x then k.lo else x;
      if cmp(x) < 0 {
        key := Target(x + 1, x);
      } else if cmp(x) == 0 {
        key := Target(lo, x);
      } else {
        key := Target(lo, if k.hi < x - 1 then k.hi else x - 1);
      }
      forall y | y in e ensures (cmp(y) < 0 <==> y < key.lo) && (cmp(y) > 0 <==> y > key.hi) {
        var i :| 0 <= i < |e| && e[i] == y;
        assert i < n ==> y == e[..n][i] && y in e[..n];
      }
    }
  }

  class BtCursor {
    const root: Tree
    const intKey: bool
    var path: seq<Frame>
    var valid: bool
    var validNKey: bool
    var nKey: int
    var atLast: bool

    constructor (root: Tree, intKey: bool)
      requires WellFormed(root, true)
      ensures Valid() && !valid && this.root == root && this.intKey == intKey
    {
      this.root, this.intKey := root, intKey;
      path, valid, validNKey, nKey, atLast := [], false, false, 0, false;
    }

    /** A valid cursor is on an entry, and what it remembers of it is true. */
    ghost predicate Valid()
      reads this
    {
      && WellFormed(root, true)
      && (valid ==> OnEntry(root, path, intKey)
                    && (validNKey ==> nKey == Last(path).page.keys[Last(path).ix])
                    && (atLast ==> Rank(root, path, intKey) + 1 == |Entries(root, intKey)|))
    }

    ghost function Position(): nat
      requires Valid() && valid
      reads this
    {
      Rank(root, path, intKey)
    }

    /** moveToChild. */
    method MoveToChild()
      requires PathOk(root, path) && Last(path).page.Node? && WellFormed(root, true)
      requires Last(path).ix <= |Last(path).page.keys|
      modifies this`path
      ensures PathOk(root, path) && |path| == |old(path)| + 1 && path[..|path| - 1] == old(path)
      ensures Last(path) == Frame(Last(old(path)).page.children[Last(old(path)).ix], 0)
      ensures WellFormed(Last(path).page, false)
      ensures |Last(old(path)).page.children| == |Last(old(path)).page.keys| + 1
      ensures Base(root, path, intKey) ==
        Base(root, old(path), intKey) + |Before(Last(old(path)).page, Last(old(path)).ix, intKey)|
    {
      PathWellFormed(root, path);
      Extended(root, path, 0, intKey);
      ghost var path0 := path;
      path := path + [Frame(path[|path| - 1].page.children[path[|path| - 1].ix], 0)];
      assert path[..|path0|] == path0;
    }

    /** moveToLeftmost: down to the first entry below the last page's child ix, which is entry
        number s; if the page is a leaf, its cell ix is. */
    method MoveToLeftmost(ghost s: nat)
      requires PathOk(root, path) && WellFormed(root, true) && Last(path).ix <= |Last(path).page.keys|
      requires Last(path).page.Leaf? ==> Last(path).ix < |Last(path).page.keys|
      requires s == Base(root, path, intKey) + Start(Last(path), intKey)
      modifies this`path
      ensures OnEntry(root, path, intKey) && Last(path).page.Leaf? && Rank(root, path, intKey) == s
    {
      while path[|path| - 1].page.Node?
        invariant PathOk(root, path) && Last(path).ix <= |Last(path).page.keys|
        invariant s == Base(root, path, intKey) + Start(Last(path), intKey)
        invariant Last(path).page.Leaf? ==> Last(path).ix < |Last(path).page.keys|
        decreases path[|path| - 1].page
      {
        MoveToChild();
      }
    }

    /** Set the index on the last page. */
    method SetIx(ix: nat)
      requires PathOk(root, path)
      modifies this`path
      ensures PathOk(root, path) && |path| == |old(path)| && path[..|path| - 1] == old(path)[..|path| - 1]
      ensures Last(path) == Frame(Last(old(path)).page, ix) && Base(root, path, intKey) == Base(root, old(path), intKey)
    {
      Reindexed(root, path, ix, intKey);
      path := path[|path| - 1 := Frame(path[|path| - 1].page, ix)];
    }

    /** To the right-most child, which ends where its parent ends. */
    method MoveRight()
      requires PathOk(root, path) && WellFormed(root, true) && Last(path).page.Node?
      modifies this`path
      ensures PathOk(root, path) && path != [] && WellFormed(Last(path).page, false)
      ensures |old(path)[|old(path)| - 1].page.children| > 0
      ensures Last(path).page == Last(old(path)).page.children[|Last(old(path)).page.children| - 1]
      ensures Base(root, path, intKey) + |Entries(Last(path).page, intKey)| ==
        Base(root, old(path), intKey) + |Entries(Last(old(path)).page, intKey)|
    {
      PathWellFormed(root, path);
      var f := path[|path| - 1];
      ChildEntries(f.page, |f.page.keys|, intKey);
      SetIx(|f.page.keys|);
      MoveToChild();
    }

    /** moveToRightmost: down to the last entry of the last page's subtree. */
    method MoveToRightmost(ghost s: nat)
      requires PathOk(root, path) && WellFormed(root, true) && (Last(path).page.keys != [] || Last(path).page.Node?)
      requires s + 1 == Base(root, path, intKey) + |Entries(Last(path).page, intKey)|
      modifies this`path
      ensures OnEntry(root, path, intKey) && Last(path).page.Leaf? && Rank(root, path, intKey) == s
    {
      while path[|path| - 1].page.Node?
        invariant PathOk(root, path) && s + 1 == Base(root, path, intKey) + |Entries(Last(path).page, intKey)|
        invariant Last(path).page.keys != [] || Last(path).page.Node?
        decreases path[|path| - 1].page
      {
        MoveRight();
      }
      SetIx(|path[|path| - 1].page.keys| - 1);
    }

    /** moveToRoot: false if the tree is empty. */
    method MoveToRoot() returns (ok: bool)
      requires WellFormed(root, true)
      modifies this`path, this`valid, this`validNKey, this`atLast
      ensures !validNKey && !atLast && valid == ok
      ensures ok <==> Entries(root, intKey) != []
      ensures ok ==>
        PathOk(root, path) && Last(path).ix == 0 && Last(path).page.keys != [] && Base(root, path, intKey) == 0
      ensures ok ==> |Entries(Last(path).page, intKey)| == |Entries(root, intKey)| && (|path| > 1 ==> root.keys == [])
    {
      path := [Frame(root, 0)];
      validNKey, atLast := false, false;
      ok := true;
      if root.keys == [] {
        if root.Node? {
          ChildEntries(root, 0, intKey);
          MoveToChild();
          SomeEntry(Last(path).page, intKey);
        } else {
          ok := false;
        }
      } else if root.Node? {
        assert WellFormed(root, false);
        SomeEntry(root, intKey);
      }
      valid := ok;
    }

    /** sqlite3BtreeFirst: false if the tree is empty. */
    method First() returns (found: bool)
      requires Valid()
      modifies this`path, this`valid, this`validNKey, this`atLast
      ensures Valid() && valid == found && (found <==> Entries(root, intKey) != []) && (found ==> Position() == 0)
    {
      found := MoveToRoot();
      if found {
        MoveToLeftmost(0);
      }
    }

    /** sqlite3BtreeLast. */
    method MoveToLast() returns (found: bool)
      requires Valid()
      modifies this`path, this`valid, this`validNKey, this`atLast
      ensures Valid() && valid == found && (found <==> Entries(root, intKey) != [])
      ensures found ==> Position() + 1 == |Entries(root, intKey)| && atLast
    {
      if valid && atLast {
        return true;
      }
      found := MoveToRoot();
      if found {
        MoveToRightmost(|Entries(root, intKey)| - 1);
        atLast := true;
      }
    }

    // ----- the next entry

    /** From the end of a page up to the first page that goes on after it; false at the end of the
        tree.  Entry number s follows. */
    method ClimbRight(ghost s: nat) returns (more: bool)
      requires PathOk(root, path) && WellFormed(root, true)
      requires s == Base(root, path, intKey) + |Entries(Last(path).page, intKey)|
      modifies this`path
      ensures PathOk(root, path)
      ensures !more ==> s == |Entries(root, intKey)|
      ensures more ==>
        Last(path).page.Node? && |Last(path).page.children| == |Last(path).page.keys| + 1 &&
        Last(path).ix < |Last(path).page.keys|
      ensures more ==> s == Base(root, path, intKey) + Local(Last(path), intKey)
    {
      while true
        invariant PathOk(root, path) && s == Base(root, path, intKey) + |Entries(Last(path).page, intKey)|
        decreases |path|
      {
        if |path| == 1 {
          return false;
        }
        ghost var f := path[|path| - 2];
        path := path[..|path| - 1];
        ChildEntries(f.page, f.ix, intKey);
        if path[|path| - 1].ix < |path[|path| - 1].page.keys| {
          return true;
        }
      }
    }

    /** From an interior page's cell ix, or from the child before it in a table, on to the first
        entry below the next child. */
    method StepInto(ghost s: nat)
      requires PathOk(root, path) && WellFormed(root, true) && Last(path).page.Node?
      requires |Last(path).page.children| == |Last(path).page.keys| + 1
      requires Last(path).ix < |Last(path).page.keys|
      requires s == Base(root, path, intKey) + |Before(Last(path).page, Last(path).ix + 1, intKey)|
      modifies this`path
      ensures OnEntry(root, path, intKey) && Last(path).page.Leaf? && Rank(root, path, intKey) == s
    {
      var f := path[|path| - 1];
      SetIx(f.ix + 1);
      if f.ix + 1 >= |f.page.keys| {
        MoveToChild();
      }
      MoveToLeftmost(s);
    }

    /** sqlite3BtreeNext: false if the cursor was on the last entry. */
    method Next() returns (ok: bool)
      requires Valid() && valid
      modifies this`path, this`valid, this`validNKey
      ensures Valid() && valid == ok && !validNKey && (ok <==> old(Position()) + 1 < |Entries(root, intKey)|)
      ensures ok ==> Position() == old(Position()) + 1
    {
      ghost var s := Position() + 1;
      EntryAt(root, path, intKey);
      validNKey := false;
      var f := path[|path| - 1];
      Slice(root, path, intKey);
      ok := true;
      if f.page.Leaf? {
        if f.ix + 1 < |f.page.keys| {
          SetIx(f.ix + 1);
        } else {
          var more := ClimbRight(s);
          if !more {
            valid := false;
            return false;
          }
          AfterChild(root, path, intKey);
          if intKey {
            StepInto(s);
          }
        }
      } else {
        StepInto(s);
      }
      EntryAt(root, path, intKey);
    }

    // ----- the previous entry

    /** From the start of a page up to the first page that has something before it; false at the
        start of the tree.  Entry number s is where the page starts. */
    method ClimbLeft(ghost s: nat) returns (more: bool)
      requires PathOk(root, path) && WellFormed(root, true) && s == Base(root, path, intKey)
      modifies this`path
      ensures PathOk(root, path)
      ensures !more ==> s == 0
      ensures more ==>
        Last(path).page.Node? && |Last(path).page.children| == |Last(path).page.keys| + 1 &&
        0 < Last(path).ix <= |Last(path).page.keys|
      ensures more ==> s == Base(root, path, intKey) + |Before(Last(path).page, Last(path).ix, intKey)|
    {
      while true
        invariant PathOk(root, path) && s == Base(root, path, intKey)
        decreases |path|
      {
        if |path| == 1 {
          return false;
        }
        path := path[..|path| - 1];
        if path[|path| - 1].ix > 0 {
          return true;
        }
      }
    }

    /** To the last entry below the last page's child ix. */
    method StepDown(ghost s: nat)
      requires PathOk(root, path) && WellFormed(root, true) && Last(path).page.Node?
      requires |Last(path).page.children| == |Last(path).page.keys| + 1
      requires Last(path).ix <= |Last(path).page.keys| && s + 1 == Base(root, path, intKey) + Local(Last(path), intKey)
      modifies this`path
      ensures OnEntry(root, path, intKey) && Last(path).page.Leaf? && Rank(root, path, intKey) == s
    {
      MoveToChild();
      MoveToRightmost(s);
    }

    /** sqlite3BtreePrevious: false if the cursor was on the first entry. */
    method Previous() returns (ok: bool)
      requires Valid() && valid
      modifies this`path, this`valid, this`validNKey, this`atLast
      ensures Valid() && valid == ok && !validNKey && (ok <==> old(Position()) > 0)
      ensures ok ==> Position() == old(Position()) - 1
    {
      ghost var s := Position();
      EntryAt(root, path, intKey);
      validNKey, atLast := false, false;
      PathWellFormed(root, path);
      var f := path[|path| - 1];
      ok := true;
      if f.page.Node? {
        SomeEntry(f.page.children[f.ix], intKey);
        StepDown(s - 1);
      } else if f.ix > 0 {
        SetIx(f.ix - 1);
      } else {
        ok := StepBack(s);
        valid := ok;
      }
    }

    /** From the first cell of a leaf to the entry before it, on another page. */
    method StepBack(ghost s: nat) returns (ok: bool)
      requires PathOk(root, path) && WellFormed(root, true) && s == Base(root, path, intKey)
      modifies this`path
      ensures ok <==> s > 0
      ensures ok ==> OnEntry(root, path, intKey) && Rank(root, path, intKey) == s - 1
    {
      ok := ClimbLeft(s);
      if ok {
        PathWellFormed(root, path);
        var g := path[|path| - 1];
        SomeEntry(g.page.children[g.ix - 1], intKey);
        SetIx(g.ix - 1);
        AfterChild(root, path, intKey);
        if intKey {
          StepDown(s - 1);
        }
      }
    }

    /** Previous undoes Next. */
    method ThereAndBack() returns (there: bool)
      requires Valid() && valid
      modifies this`path, this`valid, this`validNKey, this`atLast
      ensures there ==> Valid() && valid && Position() == old(Position())
      ensures there <==> old(Position()) + 1 < |Entries(root, intKey)|
    {
      there := Next();
      if there {
        var back := Previous();
      }
    }

    /** First, and Next until there is no next: every entry once, in order. */
    method Scan() returns (seen: seq<int>)
      requires Valid()
      modifies this`path, this`valid, this`validNKey, this`atLast
      ensures Valid() && seen == Entries(root, intKey)
    {
      seen := [];
      var more := First();
      while more
        invariant Valid() && valid == more && seen <= Entries(root, intKey)
        invariant if more then Position() == |seen| else seen == Entries(root, intKey)
        decreases |Entries(root, intKey)| - |seen|, more
      {
        EntryAt(root, path, intKey);
        seen := seen + [path[|path| - 1].page.keys[path[|path| - 1].ix]];
        more := Next();
      }
    }

    // ----- seeking

    /** Where the cursor is, relative to the key: on it, or next to where it would be. */
    ghost predicate Found(key: Target, c: int)
      requires Valid() && valid
      reads this
    {
      Near(root, path, intKey, key, c)
    }

    /** Down to the child that would hold the key. */
    method SeekChild(lwr: nat, key: Target)
      requires PathOk(root, path) && WellFormed(root, true) && Ordered(root, intKey) && Last(path).page.Node?
      requires Narrowed(root, path, intKey, key)
      requires lwr <= |Last(path).page.keys| && (lwr > 0 ==> Last(path).page.keys[lwr - 1] < key.lo)
      requires lwr < |Last(path).page.keys| ==>
        if intKey then key.hi <= Last(path).page.keys[lwr] else key.hi < Last(path).page.keys[lwr]
      modifies this`path
      ensures PathOk(root, path) && path != [] && Narrowed(root, path, intKey, key) && Last(path).page.keys != []
      ensures Last(path).ix == 0
      ensures 0 <= lwr < |Last(old(path)).page.children| && Last(path).page == Last(old(path)).page.children[lwr]
    {
      PathWellFormed(root, path);
      ghost var path0 := path;
      SetIx(lwr);
      NarrowedSame(root, path0, path, intKey, key);
      ghost var path1 := path;
      MoveToChild();
      NarrowChild(root, path1, path, intKey, key);
    }

    /** The search from a page whose subtree is where the key belongs. */
    method Search(key: Target, biasRight: bool) returns (res: int)
      requires PathOk(root, path) && WellFormed(root, true) && Ordered(root, intKey) && Last(path).page.keys != []
      requires Narrowed(root, path, intKey, key) && key.Ok() && (intKey ==> key.lo == key.hi)
      modifies this`path
      ensures OnEntry(root, path, intKey) && Near(root, path, intKey, key, res)
    {
      while true
        invariant PathOk(root, path) && Last(path).page.keys != [] && Narrowed(root, path, intKey, key)
        decreases path[|path| - 1].page
      {
        PathOrdered(root, path, intKey);
        PathWellFormed(root, path);
        var page := path[|path| - 1].page;
        var idx, c, lwr := SearchPage(page.keys, key, biasRight);
        if page.Leaf? || (c == 0 && !intKey) {
          ghost var path0 := path;
          SetIx(idx);
          NarrowedSame(root, path0, path, intKey, key);
          Arrived(root, path, intKey, key, c);
          return c;
        }
        if c == 0 {
          lwr := idx;
        }
        SeekChild(lwr, key);
      }
    }

    /** sqlite3BtreeMovetoUnpacked: the cursor ends on the key, or next to where it would be, and
        the result says on which side; -1 with an invalid cursor if there are no entries. */
    method Moveto(key: Target, biasRight: bool) returns (res: int)
      requires Valid() && Ordered(root, intKey) && key.Ok() && (intKey ==> key.lo == key.hi)
      modifies this`path, this`valid, this`validNKey, this`atLast, this`nKey
      ensures Valid() && (valid <==> Entries(root, intKey) != []) && (!valid ==> res == -1)
      ensures valid ==> Found(key, res)
      ensures res == 0 <==> exists x :: x in Entries(root, intKey) && key.Has(x)
    {
      if intKey {
        var done;
        done, res := Shortcut(key);
        if done {
          return;
        }
      }
      var ok := MoveToRoot();
      if !ok {
        return -1;
      }
      NarrowRoot(root, path, intKey, key);
      res := Search(key, biasRight);
      EntryAt(root, path, intKey);
      EntriesAscend(root, intKey);
      Decided(Entries(root, intKey), Rank(root, path, intKey), key, res);
      if res == 0 && intKey {
        validNKey, nKey := true, key.lo;
      }
    }

    /** The shortcuts of a table cursor that knows its key: it is there already, the key is beyond
        the last entry, or it may be the next entry. */
    method Shortcut(target: Target) returns (done: bool, res: int)
      requires Valid() && Ordered(root, intKey) && intKey && target.lo == target.hi
      modifies this`path, this`valid, this`validNKey
      ensures Valid()
      ensures done ==> valid && Found(target, res)
      ensures done ==> (res == 0 <==> exists x :: x in Entries(root, intKey) && target.Has(x))
    {
      done, res := false, 0;
      var key := target.lo;
      if valid && validNKey {
        EntryAt(root, path, intKey);
        EntriesAscend(root, intKey);
        ghost var r := Position();
        if nKey == key {
          Hit(Entries(root, intKey), r, target);
          return true, 0;
        }
        if nKey < key {
          if atLast {
            Decided(Entries(root, intKey), r, target, -1);
            return true, -1;
          }
          if nKey + 1 == key {
            var ok := Next();
            if ok {
              EntryAt(root, path, intKey);
              if path[|path| - 1].page.keys[path[|path| - 1].ix] == key {
                Hit(Entries(root, intKey), Position(), target);
                return true, 0;
              }
            }
          }
        }
      }
    }
  }

  /** After child ix come, in an index, cell ix and in a table child ix + 1. */
  lemma AfterChild(root: Tree, path: seq<Frame>, intKey: bool)
    requires PathOk(root, path) && Last(path).page.Node? && |Last(path).page.children| == |Last(path).page.keys| + 1
    requires Last(path).ix < |Last(path).page.keys|
    ensures Local(Last(path), intKey) + (if intKey then 0 else 1) ==
      |Before(Last(path).page, Last(path).ix + 1, intKey)|
  {
  }

  /** Where the entries from child ix on, or from cell ix on, begin. */
  ghost function Start(f: Frame, intKey: bool): nat
    requires f.ix <= |f.page.keys|
  {
    if f.page.Leaf? then f.ix else if |f.page.children| == |f.page.keys| + 1 then |Before(f.page, f.ix, intKey)| else 0
  }

  ghost predicate NearAt(e: seq<int>, r: nat, key: Target, c: int) {
    && r < |e|
    && (c == 0 ==> key.Has(e[r]))
    && (c < 0 ==> e[r] < key.lo && (r + 1 < |e| ==> e[r + 1] > key.hi))
    && (c > 0 ==> e[r] > key.hi && (r > 0 ==> e[r - 1] < key.lo))
  }

  ghost predicate Near(root: Tree, path: seq<Frame>, intKey: bool, key: Target, c: int)
    requires OnEntry(root, path, intKey)
  {
    NearAt(Entries(root, intKey), Rank(root, path, intKey), key, c)
  }

  /** Next to the key, on one side, the key is not there. */
  lemma Decided(e: seq<int>, r: nat, key: Target, c: int)
    requires Ascending(e) && NearAt(e, r, key, c)
    ensures c == 0 <==> exists x :: x in e && key.Has(x)
  {
    if c != 0 {
      forall j | 0 <= j < |e| ensures !key.Has(e[j]) {
        if c < 0 {
          assert if j <= r then e[j] <= e[r] else e[r + 1] <= e[j];
        } else {
          assert if j >= r then e[j] >= e[r] else e[r - 1] >= e[j];
        }
      }
    }
  }

  lemma Hit(e: seq<int>, r: nat, key: Target)
    requires r < |e| && key.Has(e[r])
    ensures exists x :: x in e && key.Has(x)
  {
    assert e[r] in e;
  }

  /** The entries outside the last page's subtree are on their sides of the key. */
  ghost predicate Narrowed(root: Tree, path: seq<Frame>, intKey: bool, key: Target)
    requires PathOk(root, path)
  {
    var e, b := Entries(root, intKey), Base(root, path, intKey);
    && (forall j :: 0 <= j < b && j < |e| ==> e[j] < key.lo)
    && (forall j :: b + |Entries(Last(path).page, intKey)| <= j < |e| ==> e[j] > key.hi)
  }

  lemma NarrowedSame(root: Tree, path: seq<Frame>, path': seq<Frame>, intKey: bool, key: Target)
    requires PathOk(root, path) && PathOk(root, path') && Narrowed(root, path, intKey, key)
    requires Last(path').page == Last(path).page && Base(root, path', intKey) == Base(root, path, intKey)
    ensures Narrowed(root, path', intKey, key)
  {
  }

  lemma NarrowRoot(root: Tree, path: seq<Frame>, intKey: bool, key: Target)
    requires PathOk(root, path) && Base(root, path, intKey) == 0
    requires |Entries(Last(path).page, intKey)| == |Entries(root, intKey)|
    ensures Narrowed(root, path, intKey, key)
  {
  }

  lemma NarrowChild(root: Tree, path: seq<Frame>, path': seq<Frame>, intKey: bool, key: Target)
    requires PathOk(root, path) && PathOk(root, path') && Ordered(root, intKey) && Narrowed(root, path, intKey, key)
    requires Last(path).page.Node? && |Last(path).page.children| == |Last(path).page.keys| + 1
    requires Last(path).ix <= |Last(path).page.keys|
    requires Last(path').page == Last(path).page.children[Last(path).ix]
    requires Base(root, path', intKey) == Base(root, path, intKey) + |Before(Last(path).page, Last(path).ix, intKey)|
    requires var t, i := Last(path).page, Last(path).ix;
      (i > 0 ==> t.keys[i - 1] < key.lo) &&
      (i < |t.keys| ==> if intKey then key.hi <= t.keys[i] else key.hi < t.keys[i])
    ensures Narrowed(root, path', intKey, key)
  {
    PathOrdered(root, path, intKey);
    Slice(root, path, intKey);
    var t, i := Last(path).page, Last(path).ix;
    Sides(t, i, intKey, key);
    Narrower(Entries(root, intKey), Base(root, path, intKey), Entries(t, intKey), Before(t, i, intKey),
             |Entries(t.children[i], intKey)|, key);
  }

  /** The entries of a page's subtree before and after child i are on their sides of the key. */
  lemma Sides(t: Tree, i: nat, intKey: bool, key: Target)
    requires t.Node? && Ordered(t, intKey) && i <= |t.keys| && (i > 0 ==> t.keys[i - 1] < key.lo)
    requires i < |t.keys| ==> if intKey then key.hi <= t.keys[i] else key.hi < t.keys[i]
    ensures var m, n, c := Before(t, i, intKey), |Entries(t.children[i], intKey)|, Entries(t, intKey);
      && m <= c && |m| + n <= |c| && (forall x :: x in m ==> x < key.lo)
      && forall p :: |m| + n <= p < |c| ==> c[p] > key.hi
  {
    ChildEntries(t, i, intKey);
    BeforeLess(t, i, intKey, key.lo);
    BeforeIsPrefix(t, i, intKey);
    if i < |t.keys| {
      AllAfter(t, i, intKey, key.hi);
    }
  }

  lemma Narrower(e: seq<int>, b: nat, c: seq<int>, m: seq<int>, n: nat, key: Target)
    requires b + |c| <= |e| && e[b..b + |c|] == c && m <= c && |m| + n <= |c|
    requires (forall j :: 0 <= j < b ==> e[j] < key.lo) && (forall j :: b + |c| <= j < |e| ==> e[j] > key.hi)
    requires (forall x :: x in m ==> x < key.lo) && forall p :: |m| + n <= p < |c| ==> c[p] > key.hi
    ensures (forall j :: 0 <= j < b + |m| ==> e[j] < key.lo) && (forall j :: b + |m| + n <= j < |e| ==> e[j] > key.hi)
  {
    forall j | 0 <= j < b + |m| ensures e[j] < key.lo {
      if j >= b {
        assert e[j] == e[b..b + |c|][j - b] && c[j - b] == m[j - b];
        assert m[j - b] in m;
      }
    }
    forall j | b + |m| + n <= j < |e| ensures e[j] > key.hi {
      if j < b + |c| {
        assert e[j] == e[b..b + |c|][j - b];
      }
    }
  }

  /** The search ends on a cell of a page whose other cells are on their sides of the key. */
  lemma Arrived(root: Tree, path: seq<Frame>, intKey: bool, key: Target, c: int)
    requires OnEntry(root, path, intKey) && Narrowed(root, path, intKey, key)
    requires var f := Last(path);
      if c == 0 then key.Has(f.page.keys[f.ix])
      else
        && f.page.Leaf?
        && (forall j :: 0 <= j < f.ix ==> f.page.keys[j] < key.lo)
        && (forall j :: f.ix < j < |f.page.keys| ==> f.page.keys[j] > key.hi)
        && if c < 0 then f.page.keys[f.ix] < key.lo else f.page.keys[f.ix] > key.hi
    ensures Near(root, path, intKey, key, c)
  {
    EntryAt(root, path, intKey);
    Slice(root, path, intKey);
    var f := Last(path);
    var e, b, s := Entries(root, intKey), Base(root, path, intKey), Entries(f.page, intKey);
    if c != 0 {
      var r := b + f.ix;
      if r + 1 < b + |s| {
        assert e[r + 1] == e[b..b + |s|][f.ix + 1] == s[f.ix + 1];
      }
      if f.ix > 0 {
        assert e[r - 1] == e[b..b + |s|][f.ix - 1] == s[f.ix - 1];
      }
    }
  }

  /** The entries of an ordered tree ascend. */
  lemma {:induction false} EntriesAscend(t: Tree, intKey: bool)
    requires Ordered(t, intKey)
    ensures Ascending(Entries(t, intKey))
    decreases t, |t.keys| + 1
  {
    if t.Leaf? {
    } else {
      var n := |t.keys|;
      BeforeAscend(t, n, intKey);
      assert Ordered(t.children[n], intKey);
      EntriesAscend(t.children[n], intKey);
      assert Between(t, n, intKey);
      Joined(Before(t, n, intKey), Entries(t.children[n], intKey), if n > 0 then t.keys[n - 1] else 0);
    }
  }

  lemma {:induction false} BeforeAscend(t: Tree, i: nat, intKey: bool)
    requires t.Node? && Ordered(t, intKey) && i <= |t.keys|
    ensures Ascending(Before(t, i, intKey)) && forall x :: x in Before(t, i, intKey) ==> i > 0 && x <= t.keys[i - 1]
    decreases t, i
  {
    if i == 0 {
    } else {
      BeforeAscend(t, i - 1, intKey);
      assert Ordered(t.children[i - 1], intKey);
      EntriesAscend(t.children[i - 1], intKey);
      assert Between(t, i - 1, intKey);
      var b, c := Before(t, i - 1, intKey), Entries(t.children[i - 1], intKey);
      Joined(b, c, if i > 1 then t.keys[i - 2] else 0);
      assert i > 1 ==> t.keys[i - 2] < t.keys[i - 1];
      if !intKey {
        Joined(b + c, [t.keys[i - 1]], t.keys[i - 1] - 1);
      }
    }
  }

  lemma Joined(b: seq<int>, c: seq<int>, m: int)
    requires Ascending(b) && Ascending(c)
    requires b == [] || ((forall x :: x in b ==> x <= m) && forall x :: x in c ==> m < x)
    ensures Ascending(b + c)
  {
    forall i, j | 0 <= i < j < |b + c| ensures (b + c)[i] < (b + c)[j] {
      if i < |b| <= j {
        assert b[i] in b && c[j - |b|] in c;
      }
    }
  }

  /** The binary search on one page: an equal key, or the number of keys that are less, with the
      last cell compared next to it. */
  method SearchPage(keys: seq<int>, key: Target, biasRight: bool) returns (idx: nat, c: int, lwr: nat)
    requires keys != [] && Ascending(keys)
    ensures idx < |keys| && lwr <= |keys|
    ensures c == 0 ==> key.Has(keys[idx])
    ensures c != 0 ==>
      (forall j :: 0 <= j < lwr ==> keys[j] < key.lo) && (forall j :: lwr <= j < |keys| ==> keys[j] > key.hi)
    ensures c < 0 ==> lwr == idx + 1
    ensures c > 0 ==> lwr == idx
  {
    var upr := |keys| - 1;
    lwr := 0;
    idx := if biasRight then upr else upr / 2;
    c := 0;
    while true
      invariant 0 <= lwr <= idx <= upr < |keys|
      invariant forall j :: 0 <= j < lwr ==> keys[j] < key.lo
      invariant forall j :: upr < j < |keys| ==> keys[j] > key.hi
      decreases upr - lwr
    {
      if keys[idx] < key.lo {
        lwr := idx + 1;
        if lwr > upr {
          c := -1;
          break;
        }
      } else if keys[idx] > key.hi {
        upr := idx - 1;
        if lwr > upr {
          c := 1;
          break;
        }
      } else {
        c := 0;
        break;
      }
      idx := (lwr + upr) / 2;
    }
  }
}
