/** The skip list `SkipList<T, P>` with `int` keys: its state, its class
    invariant, and the operations `find_node`, `search`, `contains`,
    `insert`, `remove`, `count` and `clear`.

    Every operation is a pure function from the old state to the new one.
    The predecessor cursor `pre_` is a result of the traversal rather than a
    field: it only carries state from `find_node` into the rest of one
    `insert`. */
module SkipLists {
  import opened Towers
  import opened Edits
  import opened Sampling
  import opened Optional

  /** The default of the constructor's `max_level` argument. */
  const DefaultMaxLevel := 12

  /** The list state: the configured maximum height, the tallest level in
      use (`cur_max_height_`), the live entries in level-0 order, and the
      entry counter (`count_`). */
  datatype SkipList<V> = SkipList(maxLevel: int, curHeight: int, entries: seq<Entry<V>>, count: nat)

  /** The class invariant every public operation keeps. */
  ghost predicate Valid<V>(l: SkipList<V>) {
    && 0 < l.maxLevel
    && 1 <= l.curHeight <= l.maxLevel
    && Sorted(l.entries)
    && Towered(l.entries)
    && (forall j :: 0 <= j < |l.entries| ==> l.entries[j].height <= l.curHeight)
    && l.count == |l.entries|
  }

  /** The map the list stands for. */
  ghost function Model<V>(l: SkipList<V>): map<int, V> {
    AsMap(l.entries)
  }

  /** The constructor: a list with no entries and height 1. A non-positive
      maximum height is refused, as the source's assertion refuses it. */
  function New<V>(maxLevel: int): (r: Option<SkipList<V>>)
    ensures r.Some? <==> 0 < maxLevel
    ensures r.Some? ==> Valid(r.value)
    ensures r.Some? ==> r.value.maxLevel == maxLevel && r.value.curHeight == 1
    ensures r.Some? ==> r.value.count == 0 && Model(r.value) == map[]
  {
    if maxLevel <= 0 then None else Some(SkipList(maxLevel, 1, [], 0))
  }

  // ---------------------------------------------------------------------
  // find_node

  /** The outcome of `find_node`: the node it returns and the cursor `pre_`. */
  datatype Found = Found(node: Ptr, pre: seq<Ptr>)

  /** `p` is where a node with `key` belongs at level `lvl`: `p` is the
      header or a node on that level below `key`, and its level-`lvl` link is
      null or reaches a key not below `key`. */
  ghost predicate Precedes<V>(s: seq<Entry<V>>, p: Ptr, lvl: nat, key: int) {
    && (p == Header || (p.Node? && OnLevel(s, p.key, lvl) && p.key < key))
    && (Link(s, p, lvl) == Null || (Link(s, p, lvl).Node? && key <= Link(s, p, lvl).key))
  }

  /** The loop of `find_node` from position `x` (-1 is the header) at `level`:
      move right while the next node's key is below `key`, otherwise record
      `x` in the cursor and drop a level; at level 0 return the next node. */
  function Descend<V>(s: seq<Entry<V>>, key: int, x: int, level: nat, pre: seq<Ptr>): (r: Found)
    requires Sorted(s) && Towered(s)
    requires -1 <= x < |s|
    requires level < |pre|
    requires 0 <= x ==> s[x].key < key && level < s[x].height
    ensures |r.pre| == |pre|
    ensures r.node == PtrAt(s, LowerBound(s, key))
    ensures forall i :: level < i < |pre| ==> r.pre[i] == pre[i]
    decreases level, |s| - x
  {
    var n := NextIndex(s, x + 1, level);
    if n < |s| && s[n].key < key then
      Descend(s, key, n, level, pre)
    else
      DescendStop(s, key, x, level);
      var pre' := pre[level := CursorAt(s, x)];
      if level == 0 then
        Found(PtrAt(s, n), pre')
      else
        Descend(s, key, x, level - 1, pre')
  }

  /** Every cursor slot the descent writes holds a predecessor of `key` at
      its level. */
  lemma {:induction false} DescendCursor<V>(s: seq<Entry<V>>, key: int, x: int, level: nat, pre: seq<Ptr>, i: nat)
    requires Sorted(s) && Towered(s)
    requires -1 <= x < |s|
    requires level < |pre|
    requires 0 <= x ==> s[x].key < key && level < s[x].height
    requires i <= level
    ensures Precedes(s, Descend(s, key, x, level, pre).pre[i], i, key)
    decreases level, |s| - x
  {
    var r := Descend(s, key, x, level, pre);
    var n := NextIndex(s, x + 1, level);
    if n < |s| && s[n].key < key {
      assert r == Descend(s, key, n, level, pre);
      DescendCursor(s, key, n, level, pre, i);
    } else {
      var pre' := pre[level := CursorAt(s, x)];
      if i < level {
        assert r == Descend(s, key, x, level - 1, pre');
        DescendCursor(s, key, x, level - 1, pre', i);
      } else {
        assert r.pre[level] == CursorAt(s, x);
        DescendStop(s, key, x, level);
      }
    }
  }

  /** Where the descent of `find_node` drops a level, its position precedes
      `key` on that level; at level 0 the next position is the lower bound. */
  lemma DescendStop<V>(s: seq<Entry<V>>, key: int, x: int, level: nat)
    requires Sorted(s) && Towered(s)
    requires -1 <= x < |s|
    requires 0 <= x ==> s[x].key < key && level < s[x].height
    requires NextIndex(s, x + 1, level) == |s| || key <= s[NextIndex(s, x + 1, level)].key
    ensures Precedes(s, CursorAt(s, x), level, key)
    ensures level == 0 ==> NextIndex(s, x + 1, level) == LowerBound(s, key)
  {
    if 0 <= x {
      LinkOfPosition(s, x, level);
      IndexOfSorted(s, x);
    }
    if level == 0 {
      assert NextIndex(s, x + 1, 0) == x + 1;
      LowerBoundUnique(s, key, x + 1);
    }
  }

  /** A cursor of `n` null slots, as `find_node` clears `pre_` before the
      descent. */
  function NullCursor(n: int): (r: seq<Ptr>)
    ensures |r| == if n < 0 then 0 else n
    ensures forall i :: 0 <= i < |r| ==> r[i] == Null
  {
    if n <= 0 then [] else NullCursor(n - 1) + [Null]
  }

  /** `find_node`: the first node whose key is not below `key` (or null),
      and the cursor holding, for every level in use, the node after which
      `key` belongs. Levels above the list height stay null. */
  function FindNode<V>(l: SkipList<V>, key: int): (r: Found)
    requires Valid(l)
    ensures |r.pre| == l.maxLevel
    ensures r.node == PtrAt(l.entries, LowerBound(l.entries, key))
    ensures forall i :: 0 <= i < l.curHeight ==> Precedes(l.entries, r.pre[i], i, key)
    ensures forall i :: l.curHeight <= i < l.maxLevel ==> r.pre[i] == Null
  {
    var r := Descend(l.entries, key, -1, l.curHeight - 1, NullCursor(l.maxLevel));
    assert forall i :: 0 <= i < l.curHeight ==> Precedes(l.entries, r.pre[i], i, key) by {
      forall i | 0 <= i < l.curHeight ensures Precedes(l.entries, r.pre[i], i, key) {
        DescendCursor(l.entries, key, -1, l.curHeight - 1, NullCursor(l.maxLevel), i);
      }
    }
    r
  }

  /** The node `find_node` returns is the least stored key not below the
      target, and it is null exactly when every stored key is below it. */
  lemma FindNodeLeast<V>(l: SkipList<V>, key: int)
    requires Valid(l)
    ensures var x := FindNode(l, key).node;
            && (x == Null <==> forall k :: k in Keys(l.entries) ==> k < key)
            && (x.Node? ==> x.key in Keys(l.entries) && key <= x.key)
            && (x.Node? ==> forall k :: k in Keys(l.entries) && key <= k ==> x.key <= k)
  {
    var s := l.entries;
    var lb := LowerBound(s, key);
    forall k | k in Keys(s) && key <= k ensures lb < |s| && s[lb].key <= k {
      var j := IndexOf(s, k);
      assert lb <= j;
    }
    if lb < |s| {
      assert s[lb].key in Keys(s);
    }
  }

  // ---------------------------------------------------------------------
  // search, contains, count

  /** `search`: the stored value when `key` is present, `None` otherwise. */
  function Search<V>(l: SkipList<V>, key: int): (r: Option<V>)
    requires Valid(l)
    ensures r.Some? <==> key in Model(l)
    ensures r.Some? ==> r.value == Model(l)[key]
  {
    var x := FindNode(l, key).node;
    LowerBoundHit(l.entries, key);
    if x.Node? && x.key == key then Some(EntryOf(l.entries, x.key).value) else None
  }

  /** `contains`: whether `key` is present. */
  function Contains<V>(l: SkipList<V>, key: int): (r: bool)
    requires Valid(l)
    ensures r <==> key in Model(l)
  {
    var x := FindNode(l, key).node;
    LowerBoundHit(l.entries, key);
    x.Node? && x.key == key
  }

  /** `count`: the number of stored keys, which is also the length of the
      level-0 chain reached from the header. */
  function Count<V>(l: SkipList<V>): (r: nat)
    requires Valid(l)
    ensures r == |Model(l)|
    ensures r == |Chain(l.entries, 0, 0)|
  {
    KeysCount(l.entries);
    AsMapDomain(l.entries);
    ChainLevelZero(l.entries, 0);
    l.count
  }

  // ---------------------------------------------------------------------
  // insert

  /** The cursor once `insert` has raised the list height from `from` to
      `height`: the levels newly put in use get the header. */
  function RaiseCursor(pre: seq<Ptr>, from: int, height: int): (r: seq<Ptr>)
    ensures |r| == |pre|
    ensures forall i :: from <= i < height && 0 <= i < |pre| ==> r[i] == Header
    ensures forall i :: 0 <= i < |pre| && (i < from || height <= i) ==> r[i] == pre[i]
  {
    seq(|pre|, i requires 0 <= i < |pre| => if from <= i < height then Header else pre[i])
  }

  /** The level-0 position right after `p`. */
  function SlotAfter<V>(s: seq<Entry<V>>, p: Ptr): (r: nat)
    requires p == Header || (p.Node? && p.key in Keys(s))
    ensures r <= |s|
  {
    if p == Header then 0 else IndexOf(s, p.key) + 1
  }

  /** The level-0 predecessor recorded by `find_node` sits right before the
      lower bound of `key`. */
  lemma SlotAfterPredecessor<V>(s: seq<Entry<V>>, p: Ptr, key: int)
    requires Sorted(s) && Towered(s)
    requires Precedes(s, p, 0, key)
    ensures p == Header || (p.Node? && p.key in Keys(s))
    ensures SlotAfter(s, p) == LowerBound(s, key)
  {
    if p.Node? {
      var q := IndexOf(s, p.key);
      LinkOfPosition(s, q, 0);
      assert NextIndex(s, q + 1, 0) == q + 1;
    } else {
      assert NextIndex(s, 0, 0) == 0;
    }
    LowerBoundUnique(s, key, SlotAfter(s, p));
  }

  /** The new-key path of `insert`: raise the height if the new tower is
      taller, then link a tower of `height` levels after the cursor. */
  function InsertNew<V>(l: SkipList<V>, key: int, value: V, height: int, pre: seq<Ptr>): (r: SkipList<V>)
    requires Valid(l)
    requires key !in Keys(l.entries)
    requires 1 <= height <= l.maxLevel
    requires |pre| == l.maxLevel
    requires forall i :: 0 <= i < l.curHeight ==> Precedes(l.entries, pre[i], i, key)
    ensures Valid(r)
    ensures r.entries == InsertAt(l.entries, LowerBound(l.entries, key), Entry(key, value, height))
    ensures r.maxLevel == l.maxLevel
    ensures r.curHeight == (if l.curHeight < height then height else l.curHeight)
    ensures r.count == l.count + 1
    ensures Model(r) == Model(l)[key := value]
    ensures HeightOf(r.entries, key) == height
    ensures forall k :: k in Keys(l.entries) ==>
              k in Keys(r.entries) && EntryOf(r.entries, k) == EntryOf(l.entries, k)
  {
    var cur := RaiseCursor(pre, l.curHeight, height);
    assert cur[0] == pre[0];
    SlotAfterPredecessor(l.entries, cur[0], key);
    var at := SlotAfter(l.entries, cur[0]);
    var top := if l.curHeight < height then height else l.curHeight;
    InsertAtLowerBound(l.entries, Entry(key, value, height));
    InsertAtHeights(l.entries, at, Entry(key, value, height), top);
    SkipList(l.maxLevel, top, InsertAt(l.entries, at, Entry(key, value, height)), l.count + 1)
  }

  /** The present-key path of `insert`: overwrite the value in place. */
  function Overwrite<V>(l: SkipList<V>, key: int, value: V): (r: SkipList<V>)
    requires Valid(l)
    requires key in Keys(l.entries)
    ensures Valid(r)
    ensures Model(r) == Model(l)[key := value]
    ensures r.maxLevel == l.maxLevel && r.curHeight == l.curHeight && r.count == l.count
    ensures HeightOf(r.entries, key) == HeightOf(l.entries, key)
    ensures forall k :: k in Keys(l.entries) && k != key ==>
              k in Keys(r.entries) && EntryOf(r.entries, k) == EntryOf(l.entries, k)
  {
    var i := IndexOf(l.entries, key);
    SetValueAtKey(l.entries, i, value);
    l.(entries := SetValueAt(l.entries, i, value))
  }

  /** `insert`: overwrite the value of a present key in place, or link in a
      new tower whose height `random_level` draws from `draw`. */
  function Insert<V>(l: SkipList<V>, key: int, value: V, draw: nat -> nat): (r: SkipList<V>)
    requires Valid(l)
    ensures Valid(r)
    ensures Model(r) == Model(l)[key := value]
    ensures r.maxLevel == l.maxLevel
    ensures key in Model(l) ==> r.count == l.count && r.curHeight == l.curHeight
    ensures key in Model(l) ==> HeightOf(r.entries, key) == HeightOf(l.entries, key)
    ensures key !in Model(l) ==> r.count == l.count + 1
    ensures key !in Model(l) ==> HeightOf(r.entries, key) == RandomLevel(l.maxLevel, draw)
    ensures key !in Model(l) ==>
              var h := RandomLevel(l.maxLevel, draw);
              r.curHeight == if l.curHeight < h then h else l.curHeight
    ensures forall k :: k in Keys(l.entries) && k != key ==>
              k in Keys(r.entries) && EntryOf(r.entries, k) == EntryOf(l.entries, k)
  {
    var f := FindNode(l, key);
    LowerBoundHit(l.entries, key);
    if f.node.Node? && f.node.key == key then
      Overwrite(l, key, value)
    else
      InsertNew(l, key, value, RandomLevel(l.maxLevel, draw), f.pre)
  }

  // ---------------------------------------------------------------------
  // remove

  /** The outcome of the descent in `remove`: the node found (`purpose`) and,
      per level, the predecessor whose link was redirected past it. */
  datatype Sweep = Sweep(purpose: Ptr, cut: seq<Ptr>)

  /** The loop of `remove` from position `x` at `level` (-1 ends it): skip a
      null link by dropping a level, move right past smaller keys, and when
      the next node holds `key` redirect `x`'s link past it before dropping. */
  function Unlink<V>(s: seq<Entry<V>>, key: int, x: int, level: int, purpose: Ptr, cut: seq<Ptr>): (r: Sweep)
    requires Sorted(s) && Towered(s)
    requires -1 <= x < |s|
    requires -1 <= level < |cut|
    requires 0 <= x ==> s[x].key < key && level < s[x].height
    requires purpose == Null || purpose == Node(key)
    requires purpose == Node(key) <==> key in Keys(s) && level + 1 < HeightOf(s, key)
    ensures |r.cut| == |cut|
    ensures r.purpose == if key in Keys(s) then Node(key) else Null
    ensures forall i :: level < i < |cut| ==> r.cut[i] == cut[i]
    decreases level + 1, |s| - x
  {
    if level < 0 then
      Sweep(purpose, cut)
    else
      var n := NextIndex(s, x + 1, level);
      UnlinkStep(s, key, x, level);
      if n == |s| then
        Unlink(s, key, x, level - 1, purpose, cut)
      else if s[n].key < key then
        Unlink(s, key, n, level, purpose, cut)
      else if s[n].key == key then
        Unlink(s, key, x, level - 1, Node(key), cut[level := CursorAt(s, x)])
      else
        Unlink(s, key, x, level - 1, purpose, cut)
  }

  /** What the descent of `remove` leaves in the slot of level `i`: a
      reference exactly when `key` is on that level, and then one on that
      level whose link leads to the node of `key`. */
  ghost predicate CutSlot<V>(s: seq<Entry<V>>, key: int, c: Ptr, i: nat) {
    && (c != Null <==> OnLevel(s, key, i))
    && (c != Null ==> Link(s, c, i) == Node(key) && Linked(s, c, i))
  }

  lemma {:induction false} UnlinkCut<V>(s: seq<Entry<V>>, key: int, x: int, level: int, purpose: Ptr, cut: seq<Ptr>, i: nat)
    requires Sorted(s) && Towered(s)
    requires -1 <= x < |s|
    requires -1 <= level < |cut|
    requires 0 <= x ==> s[x].key < key && level < s[x].height
    requires purpose == Null || purpose == Node(key)
    requires purpose == Node(key) <==> key in Keys(s) && level + 1 < HeightOf(s, key)
    requires forall j :: 0 <= j <= level ==> cut[j] == Null
    requires i <= level
    ensures CutSlot(s, key, Unlink(s, key, x, level, purpose, cut).cut[i], i)
    decreases level + 1, |s| - x
  {
    var r := Unlink(s, key, x, level, purpose, cut);
    var n := NextIndex(s, x + 1, level);
    UnlinkStep(s, key, x, level);
    if n < |s| && s[n].key < key {
      assert r == Unlink(s, key, n, level, purpose, cut);
      UnlinkCut(s, key, n, level, purpose, cut, i);
    } else if n < |s| && s[n].key == key {
      var cut' := cut[level := CursorAt(s, x)];
      assert r == Unlink(s, key, x, level - 1, Node(key), cut');
      if i < level {
        UnlinkCut(s, key, x, level - 1, Node(key), cut', i);
      } else {
        assert r.cut[i] == CursorAt(s, x);
      }
    } else {
      assert r == Unlink(s, key, x, level - 1, purpose, cut);
      if i < level {
        UnlinkCut(s, key, x, level - 1, purpose, cut, i);
      } else {
        assert r.cut[i] == Null;
      }
    }
  }

  /** One step of the `remove` descent: the next node at `level` holds `key`
      exactly when `key` is on that level, and then the current node's link
      leads to it. */
  lemma UnlinkStep<V>(s: seq<Entry<V>>, key: int, x: int, level: nat)
    requires Sorted(s) && Towered(s)
    requires -1 <= x < |s|
    requires 0 <= x ==> s[x].key < key && level < s[x].height
    ensures NextIndex(s, x + 1, level) == |s| || key < s[NextIndex(s, x + 1, level)].key ==>
              !OnLevel(s, key, level)
    ensures NextIndex(s, x + 1, level) < |s| && s[NextIndex(s, x + 1, level)].key == key ==>
              CutSlot(s, key, CursorAt(s, x), level)
  {
    var n := NextIndex(s, x + 1, level);
    if OnLevel(s, key, level) {
      var i := IndexOf(s, key);
      assert x < i;
      assert n <= i;
    }
    if n < |s| && s[n].key == key {
      IndexOfSorted(s, n);
      if 0 <= x {
        LinkOfPosition(s, x, level);
        IndexOfSorted(s, x);
      }
    }
  }

  /** The descent of `remove` from the header at the top level in use: it
      finds the node holding `key` if there is one, and at exactly the levels
      of that node's tower it redirects the predecessor's link. */
  function RemoveDescent<V>(l: SkipList<V>, key: int): (w: Sweep)
    requires Valid(l)
    ensures |w.cut| == l.maxLevel
    ensures w.purpose == if key in Keys(l.entries) then Node(key) else Null
    ensures forall i :: 0 <= i < l.maxLevel ==> CutSlot(l.entries, key, w.cut[i], i)
  {
    var none := NullCursor(l.maxLevel);
    assert key in Keys(l.entries) ==> HeightOf(l.entries, key) <= l.curHeight;
    var w := Unlink(l.entries, key, -1, l.curHeight - 1, Null, none);
    assert forall i :: 0 <= i < l.maxLevel ==> CutSlot(l.entries, key, w.cut[i], i) by {
      forall i | 0 <= i < l.maxLevel ensures CutSlot(l.entries, key, w.cut[i], i) {
        if i < l.curHeight {
          UnlinkCut(l.entries, key, -1, l.curHeight - 1, Null, none, i);
        }
      }
    }
    w
  }

  /** What `remove` returns: the new state and whether a node was removed. */
  datatype Removal<V> = Removal(list: SkipList<V>, removed: bool)

  /** `remove` with the contract its declaration documents: a present key is
      unlinked at every level and counted out; an absent key is reported and
      nothing changes. */
  function Remove<V>(l: SkipList<V>, key: int): (r: Removal<V>)
    requires Valid(l)
    ensures Valid(r.list)
    ensures r.removed <==> key in Model(l)
    ensures Model(r.list) == Model(l) - {key}
    ensures r.list.count == if r.removed then l.count - 1 else l.count
    ensures r.list.maxLevel == l.maxLevel && r.list.curHeight == l.curHeight
    ensures !r.removed ==> r.list == l
    ensures r.removed ==> r.list.entries == RemoveAt(l.entries, IndexOf(l.entries, key))
    ensures forall k :: k in Keys(r.list.entries) ==>
              k in Keys(l.entries) && EntryOf(r.list.entries, k) == EntryOf(l.entries, k)
  {
    var w := RemoveDescent(l, key);
    if w.purpose == Null then
      Removal(l, false)
    else
      Removal(Unhook(l, w.purpose.key), true)
  }

  /** The found-node path of `remove`: the node of `key` leaves every level
      and is counted out. */
  function Unhook<V>(l: SkipList<V>, key: int): (r: SkipList<V>)
    requires Valid(l)
    requires key in Keys(l.entries)
    ensures Valid(r)
    ensures Model(r) == Model(l) - {key}
    ensures r.count + 1 == l.count
    ensures r.maxLevel == l.maxLevel && r.curHeight == l.curHeight
    ensures r.entries == RemoveAt(l.entries, IndexOf(l.entries, key))
    ensures forall k :: k in Keys(r.entries) ==>
              k in Keys(l.entries) && EntryOf(r.entries, k) == EntryOf(l.entries, k)
  {
    var i := IndexOf(l.entries, key);
    RemoveAtKey(l.entries, i);
    RemoveAtHeights(l.entries, i, l.curHeight);
    l.(entries := RemoveAt(l.entries, i), count := l.count - 1)
  }

  // ---------------------------------------------------------------------
  // clear

  /** The loop of `clear`: walk the level-0 chain from position `from`,
      freeing each node and decrementing the counter once per node. */
  function Drain<V>(s: seq<Entry<V>>, from: nat, count: nat): (r: nat)
    requires Towered(s)
    requires from <= |s|
    requires |s| - from <= count
    ensures r + |Chain(s, from, 0)| == count
    decreases |s| - from
  {
    var n := NextIndex(s, from, 0);
    if n == |s| then
      count
    else
      assert n == from;
      Drain(s, n + 1, count - 1)
  }

  /** `clear`: every node is released and counted out; the height in use
      and the configured maximum stay. */
  function Clear<V>(l: SkipList<V>): (r: SkipList<V>)
    requires Valid(l)
    ensures Valid(r)
    ensures r.count == 0
    ensures Model(r) == map[]
    ensures r.maxLevel == l.maxLevel && r.curHeight == l.curHeight
    ensures forall lvl: nat :: Link(r.entries, Header, lvl) == Null
  {
    ChainLevelZero(l.entries, 0);
    SkipList(l.maxLevel, l.curHeight, [], Drain(l.entries, 0, l.count))
  }
}
