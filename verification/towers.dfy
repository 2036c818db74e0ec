/** The entries of a skip list and the forward links they induce.

    A skip list is represented by the sequence of its live entries in
    level-0 order. Each entry carries the height of its tower, and the
    tower of an entry of height h has a forward link at levels 0..h-1.
    The link of a node at level i leads to the next entry whose height
    exceeds i, which is how the source's per-node `next_` arrays are wired
    whenever the structure is intact. Nodes are named by their keys: a key
    is stored at most once, so it identifies its node.
 */
module Towers {

  /** A live node: its key, its value and the height of its tower. */
  datatype Entry<V> = Entry(key: int, value: V, height: nat)

  /** A node reference: a null link, the header sentinel, or the node holding `key`. */
  datatype Ptr = Null | Header | Node(key: int)

  /** Level 0 is strictly increasing by key; in particular no key occurs twice. */
  ghost predicate Sorted<V>(s: seq<Entry<V>>) {
    forall a, b :: 0 <= a < b < |s| ==> s[a].key < s[b].key
  }

  /** Every tower has at least its level-0 link. */
  ghost predicate Towered<V>(s: seq<Entry<V>>) {
    forall j :: 0 <= j < |s| ==> 1 <= s[j].height
  }

  function Keys<V>(s: seq<Entry<V>>): set<int> {
    set j | 0 <= j < |s| :: s[j].key
  }

  /** Position of the node holding `k`, or |s| when there is none. */
  function IndexOf<V>(s: seq<Entry<V>>, k: int): (r: nat)
    ensures r <= |s|
    ensures r < |s| <==> k in Keys(s)
    ensures r < |s| ==> s[r].key == k
    ensures forall j :: 0 <= j < r ==> s[j].key != k
    decreases |s|
  {
    if |s| == 0 then 0
    else if s[0].key == k then 0
    else
      var r := 1 + IndexOf(s[1..], k);
      assert Keys(s) == {s[0].key} + Keys(s[1..]) by {
        forall x | x in Keys(s) ensures x in {s[0].key} + Keys(s[1..]) {
          var j :| 0 <= j < |s| && s[j].key == x;
          if j > 0 { assert s[1..][j - 1].key == x; }
        }
      }
      r
  }

  /** The height of the node holding `k`; 0 when `k` is not stored. */
  function HeightOf<V>(s: seq<Entry<V>>, k: int): nat {
    var i := IndexOf(s, k);
    if i < |s| then s[i].height else 0
  }

  /** The node holding `k` is linked at level `lvl`. */
  ghost predicate OnLevel<V>(s: seq<Entry<V>>, k: int, lvl: nat) {
    lvl < HeightOf(s, k)
  }

  /** `p` is the header or a node whose tower reaches level `lvl`: exactly
      the references whose level-`lvl` link the source may read or write. */
  ghost predicate Linked<V>(s: seq<Entry<V>>, p: Ptr, lvl: nat) {
    p == Header || (p.Node? && OnLevel(s, p.key, lvl))
  }

  /** The entry holding `k`, i.e. the node a pointer to `k` dereferences to. */
  function EntryOf<V>(s: seq<Entry<V>>, k: int): (e: Entry<V>)
    requires k in Keys(s)
    ensures e.key == k
    ensures e in s
  {
    s[IndexOf(s, k)]
  }

  /** The map from keys to values that the skip list represents. */
  ghost function AsMap<V>(s: seq<Entry<V>>): map<int, V> {
    map k | k in Keys(s) :: EntryOf(s, k).value
  }

  /** First position at or after `from` whose tower reaches above `lvl`, or |s|. */
  function NextIndex<V>(s: seq<Entry<V>>, from: nat, lvl: nat): (r: nat)
    requires from <= |s|
    ensures from <= r <= |s|
    ensures r < |s| ==> s[r].height > lvl
    ensures forall j :: from <= j < r ==> s[j].height <= lvl
    decreases |s| - from
  {
    if from == |s| then from
    else if s[from].height > lvl then from
    else NextIndex(s, from + 1, lvl)
  }

  /** The node at position `j`, or null past the end. */
  function PtrAt<V>(s: seq<Entry<V>>, j: nat): Ptr {
    if j < |s| then Node(s[j].key) else Null
  }

  /** The cursor value for a traversal position: -1 is the header. */
  function CursorAt<V>(s: seq<Entry<V>>, x: int): Ptr
    requires -1 <= x < |s|
  {
    if x < 0 then Header else Node(s[x].key)
  }

  /** The level-`lvl` forward link of `p`, i.e. `p->get(lvl)`. */
  function Link<V>(s: seq<Entry<V>>, p: Ptr, lvl: nat): (r: Ptr)
    ensures r != Header
    ensures r.Node? ==> exists j :: 0 <= j < |s| && s[j].key == r.key && lvl < s[j].height
  {
    match p
    case Null => Null
    case Header => PtrAt(s, NextIndex(s, 0, lvl))
    case Node(k) =>
      var q := IndexOf(s, k);
      if q < |s| then PtrAt(s, NextIndex(s, q + 1, lvl)) else Null
  }

  /** The keys met by following level-`lvl` links, starting with the first
      candidate at or after position `from`. */
  function Chain<V>(s: seq<Entry<V>>, from: nat, lvl: nat): seq<int>
    requires from <= |s|
    decreases |s| - from
  {
    var n := NextIndex(s, from, lvl);
    if n == |s| then [] else [s[n].key] + Chain(s, n + 1, lvl)
  }

  /** The first node of a chain is where the header's link (for `from` = 0) leads. */
  lemma ChainHead<V>(s: seq<Entry<V>>, from: nat, lvl: nat)
    requires from <= |s|
    ensures PtrAt(s, NextIndex(s, from, lvl)) ==
              (if |Chain(s, from, lvl)| == 0 then Null else Node(Chain(s, from, lvl)[0]))
  {
  }

  /** Reference definition of the search target: the first position whose
      key is not below `key`, found by a linear scan of level 0. */
  function LowerBound<V>(s: seq<Entry<V>>, key: int): (r: nat)
    ensures r <= |s|
    ensures forall j :: 0 <= j < r ==> s[j].key < key
    ensures r < |s| ==> key <= s[r].key
    decreases |s|
  {
    if |s| == 0 || key <= s[0].key then 0 else 1 + LowerBound(s[1..], key)
  }

  // ---------------------------------------------------------------------
  // Facts about sorted entry sequences

  lemma IndexOfSorted<V>(s: seq<Entry<V>>, j: nat)
    requires Sorted(s)
    requires j < |s|
    ensures IndexOf(s, s[j].key) == j
  {
  }

  lemma LowerBoundUnique<V>(s: seq<Entry<V>>, key: int, r: nat)
    requires Sorted(s)
    requires r <= |s|
    requires forall j :: 0 <= j < r ==> s[j].key < key
    requires r < |s| ==> key <= s[r].key
    ensures r == LowerBound(s, key)
  {
  }

  /** The lower bound holds the key exactly when the key is stored. */
  lemma LowerBoundHit<V>(s: seq<Entry<V>>, key: int)
    requires Sorted(s)
    ensures key in Keys(s) <==> LowerBound(s, key) < |s| && s[LowerBound(s, key)].key == key
  {
    var lb := LowerBound(s, key);
    if key in Keys(s) {
      var i := IndexOf(s, key);
      assert lb <= i;
    }
  }

  /** Distinct keys: a sorted list of n entries stores n keys. */
  lemma {:induction false} KeysCount<V>(s: seq<Entry<V>>)
    requires Sorted(s)
    ensures |Keys(s)| == |s|
    decreases |s|
  {
    if |s| > 0 {
      var t := s[1..];
      KeysCount(t);
      assert Keys(s) == {s[0].key} + Keys(t) by {
        forall x | x in Keys(s) ensures x in {s[0].key} + Keys(t) {
          var j :| 0 <= j < |s| && s[j].key == x;
          if j > 0 { assert t[j - 1].key == x; }
        }
        forall x | x in Keys(t) ensures x in Keys(s) {
          var j :| 0 <= j < |t| && t[j].key == x;
          assert s[j + 1].key == x;
        }
      }
      assert s[0].key !in Keys(t);
    }
  }

  lemma AsMapDomain<V>(s: seq<Entry<V>>)
    ensures AsMap(s).Keys == Keys(s)
  {
  }

  // ---------------------------------------------------------------------
  // The level chains

  /** Level membership of the chain: following level-`lvl` links from
      position `from` meets exactly the nodes at or after `from` whose
      towers reach level `lvl`. */
  lemma {:induction false} ChainMembers<V>(s: seq<Entry<V>>, from: nat, lvl: nat, k: int)
    requires from <= |s|
    ensures k in Chain(s, from, lvl) <==>
              exists j :: from <= j < |s| && s[j].key == k && lvl < s[j].height
    decreases |s| - from
  {
    var n := NextIndex(s, from, lvl);
    if n < |s| {
      ChainMembers(s, n + 1, lvl, k);
      if exists j :: from <= j < |s| && s[j].key == k && lvl < s[j].height {
        var j :| from <= j < |s| && s[j].key == k && lvl < s[j].height;
        assert n <= j;
        if j > n {
          assert k in Chain(s, n + 1, lvl);
        }
      }
    }
  }

  /** Every key on a chain lies strictly after the node where the chain
      starts, and the chain itself is strictly increasing. */
  lemma {:induction false} ChainIncreasing<V>(s: seq<Entry<V>>, from: nat, lvl: nat)
    requires Sorted(s)
    requires from <= |s|
    ensures forall a, b :: 0 <= a < b < |Chain(s, from, lvl)| ==>
              Chain(s, from, lvl)[a] < Chain(s, from, lvl)[b]
    ensures forall a :: 0 <= a < |Chain(s, from, lvl)| ==>
              from < |s| && s[from].key <= Chain(s, from, lvl)[a]
    decreases |s| - from
  {
    var n := NextIndex(s, from, lvl);
    if n < |s| {
      ChainIncreasing(s, n + 1, lvl);
      var c := Chain(s, from, lvl);
      var t := Chain(s, n + 1, lvl);
      assert c == [s[n].key] + t;
      forall a | 0 <= a < |t| ensures s[n].key < t[a] {
        assert n + 1 < |s| && s[n + 1].key <= t[a];
      }
      forall a | 0 <= a < |c| ensures s[from].key <= c[a] {
        assert from <= n;
        if a > 0 { assert c[a] == t[a - 1]; }
      }
    } else {
      assert Chain(s, from, lvl) == [];
    }
  }

  /** The level-`lvl` link of the node at position `n` leads to the next
      position whose tower reaches level `lvl`. */
  lemma LinkOfPosition<V>(s: seq<Entry<V>>, n: nat, lvl: nat)
    requires Sorted(s)
    requires n < |s|
    ensures Link(s, Node(s[n].key), lvl) == PtrAt(s, NextIndex(s, n + 1, lvl))
  {
    IndexOfSorted(s, n);
  }

  /** The links agree with the chain: the `j`-th chain element links to
      the next one, and the last one links to null. */
  lemma {:induction false} ChainLink<V>(s: seq<Entry<V>>, from: nat, lvl: nat, j: nat)
    requires Sorted(s)
    requires from <= |s|
    requires j < |Chain(s, from, lvl)|
    ensures Link(s, Node(Chain(s, from, lvl)[j]), lvl) ==
              (if j + 1 < |Chain(s, from, lvl)| then Node(Chain(s, from, lvl)[j + 1]) else Null)
    decreases |s| - from
  {
    var n := NextIndex(s, from, lvl);
    var c := Chain(s, from, lvl);
    var t := Chain(s, n + 1, lvl);
    assert c == [s[n].key] + t;
    if j > 0 {
      ChainLink(s, n + 1, lvl, j - 1);
      assert c[j] == t[j - 1];
      if j + 1 < |c| { assert c[j + 1] == t[j]; }
    } else {
      LinkOfPosition(s, n, lvl);
      var m := NextIndex(s, n + 1, lvl);
      if m < |s| { assert t == [s[m].key] + Chain(s, m + 1, lvl); }
    }
  }

  /** At level 0 every tower is present, so the chain visits every entry. */
  lemma {:induction false} ChainLevelZero<V>(s: seq<Entry<V>>, from: nat)
    requires Towered(s)
    requires from <= |s|
    ensures |Chain(s, from, 0)| == |s| - from
    decreases |s| - from
  {
    if from < |s| {
      assert NextIndex(s, from, 0) == from;
      ChainLevelZero(s, from + 1);
    }
  }
}
