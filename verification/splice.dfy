/** The pointer-level effect of `insert` and `remove`.

    The source changes links one level at a time: `insert` sets, for each
    level below the new tower's height, the new node's link to the cursor
    node's old link and then the cursor node's link to the new node;
    `remove` redirects, at each level where the node occurs, its
    predecessor's link to the node's own link. The lemmas here show that
    the links of the new entry sequence are exactly the links those
    assignments produce, and that no other link changes. */
module Splicing {
  import opened Towers
  import opened Edits
  import opened SkipLists

  /** The level-0 position of a node reference; -1 for the header. */
  function PosOf<V>(s: seq<Entry<V>>, p: Ptr): (q: int)
    requires p == Header || (p.Node? && p.key in Keys(s))
    ensures -1 <= q < |s|
    ensures p == Header <==> q == -1
    ensures p.Node? ==> s[q].key == p.key
  {
    if p == Header then -1 else IndexOf(s, p.key)
  }

  lemma LinkByPosition<V>(s: seq<Entry<V>>, p: Ptr, lvl: nat, q: int)
    requires p == Header || (p.Node? && p.key in Keys(s))
    requires PosOf(s, p) == q
    ensures Link(s, p, lvl) == PtrAt(s, NextIndex(s, q + 1, lvl))
  {
  }

  /** Two linked references whose level-`lvl` links meet the same position
      are the same reference: a level is a single chain. */
  lemma SameSuccessorSamePosition<V>(s: seq<Entry<V>>, q1: int, q2: int, lvl: nat)
    requires -1 <= q1 < |s| && -1 <= q2 < |s|
    requires 0 <= q1 ==> lvl < s[q1].height
    requires 0 <= q2 ==> lvl < s[q2].height
    requires NextIndex(s, q1 + 1, lvl) == NextIndex(s, q2 + 1, lvl)
    ensures q1 == q2
  {
  }

  // ---------------------------------------------------------------------
  // Positions across a splice

  lemma {:induction false} NextIndexInsertBefore<V>(s: seq<Entry<V>>, at: nat, e: Entry<V>, from: nat, lvl: nat)
    requires at <= |s|
    requires from <= at
    ensures var n := NextIndex(s, from, lvl);
            NextIndex(InsertAt(s, at, e), from, lvl) ==
              if n < at then n else if lvl < e.height then at else n + 1
    decreases at - from
  {
    var r := InsertAt(s, at, e);
    if from < at {
      assert r[from] == s[from];
      NextIndexInsertBefore(s, at, e, from + 1, lvl);
    } else {
      assert r[at] == e;
      if e.height <= lvl {
        NextIndexInsertAfter(s, at, e, at, lvl);
      }
    }
  }

  lemma {:induction false} NextIndexInsertAfter<V>(s: seq<Entry<V>>, at: nat, e: Entry<V>, from: nat, lvl: nat)
    requires at <= from <= |s|
    ensures NextIndex(InsertAt(s, at, e), from + 1, lvl) == NextIndex(s, from, lvl) + 1
    decreases |s| - from
  {
    var r := InsertAt(s, at, e);
    if from < |s| {
      assert r[from + 1] == s[from];
      NextIndexInsertAfter(s, at, e, from + 1, lvl);
    }
  }

  lemma {:induction false} NextIndexRemoveBefore<V>(s: seq<Entry<V>>, d: nat, from: nat, lvl: nat)
    requires d < |s|
    requires from <= d
    ensures var n := NextIndex(s, from, lvl);
            NextIndex(RemoveAt(s, d), from, lvl) ==
              if n < d then n else if n == d then NextIndex(s, d + 1, lvl) - 1 else n - 1
    decreases d - from
  {
    var r := RemoveAt(s, d);
    if from < d {
      assert r[from] == s[from];
      NextIndexRemoveBefore(s, d, from + 1, lvl);
    } else {
      NextIndexRemoveAfter(s, d, d, lvl);
    }
  }

  lemma {:induction false} NextIndexRemoveAfter<V>(s: seq<Entry<V>>, d: nat, from: nat, lvl: nat)
    requires d <= from < |s|
    ensures NextIndex(RemoveAt(s, d), from, lvl) == NextIndex(s, from + 1, lvl) - 1
    decreases |s| - from
  {
    var r := RemoveAt(s, d);
    if from + 1 < |s| {
      assert r[from] == s[from + 1];
      NextIndexRemoveAfter(s, d, from + 1, lvl);
    }
  }

  /** Starting a search for the next tower anywhere between a position and
      the tower it finds gives the same tower. */
  lemma NextIndexSkip<V>(s: seq<Entry<V>>, from0: nat, from: nat, lvl: nat)
    requires from0 <= |s|
    requires from0 <= from <= NextIndex(s, from0, lvl)
    ensures NextIndex(s, from, lvl) == NextIndex(s, from0, lvl)
  {
  }

  /** A predecessor for `key` sits before the lower bound and its link
      reaches at or past it. */
  lemma PrecedesPositions<V>(s: seq<Entry<V>>, c: Ptr, lvl: nat, key: int)
    requires Sorted(s)
    requires key !in Keys(s)
    requires Precedes(s, c, lvl, key)
    ensures c == Header || (c.Node? && c.key in Keys(s))
    ensures PosOf(s, c) < LowerBound(s, key)
    ensures 0 <= PosOf(s, c) ==> lvl < s[PosOf(s, c)].height
    ensures LowerBound(s, key) <= NextIndex(s, PosOf(s, c) + 1, lvl)
  {
    var at := LowerBound(s, key);
    var q := PosOf(s, c);
    LinkByPosition(s, c, lvl, q);
  }

  // ---------------------------------------------------------------------
  // insert

  /** Where a stored node sits after the splice. */
  lemma PosAfterInsert<V>(s: seq<Entry<V>>, e: Entry<V>, p: Ptr, at: nat, r: seq<Entry<V>>)
    requires Sorted(s)
    requires e.key !in Keys(s)
    requires p == Header || (p.Node? && p.key in Keys(s))
    requires at == LowerBound(s, e.key) && r == InsertAt(s, at, e)
    ensures p == Header || (p.Node? && p.key in Keys(r))
    ensures PosOf(s, p) < at ==> PosOf(r, p) == PosOf(s, p)
    ensures at <= PosOf(s, p) ==> PosOf(r, p) == PosOf(s, p) + 1
  {
    InsertAtSorted(s, e);
    if p.Node? {
      var q := PosOf(s, p);
      if q < at {
        assert r[q] == s[q];
        IndexOfSorted(r, q);
      } else {
        assert r[q + 1] == s[q];
        IndexOfSorted(r, q + 1);
      }
    }
  }

  /** The new node's position after the splice is the lower bound. */
  lemma PosOfInserted<V>(s: seq<Entry<V>>, e: Entry<V>, at: nat, r: seq<Entry<V>>)
    requires Sorted(s)
    requires e.key !in Keys(s)
    requires at == LowerBound(s, e.key) && r == InsertAt(s, at, e)
    ensures e.key in Keys(r)
    ensures PosOf(r, Node(e.key)) == at
  {
    InsertAtSorted(s, e);
    assert r[at] == e;
    IndexOfSorted(r, at);
  }

  /** A position of the old sequence names the same node in the new one. */
  lemma PtrAtAfterInsert<V>(s: seq<Entry<V>>, at: nat, e: Entry<V>, n: nat)
    requires at <= n <= |s|
    ensures PtrAt(InsertAt(s, at, e), n + 1) == PtrAt(s, n)
  {
    if n < |s| { assert InsertAt(s, at, e)[n + 1] == s[n]; }
  }

  lemma PtrAtBeforeInsert<V>(s: seq<Entry<V>>, at: nat, e: Entry<V>, n: nat)
    requires n < at <= |s|
    ensures PtrAt(InsertAt(s, at, e), n) == PtrAt(s, n)
  {
    assert InsertAt(s, at, e)[n] == s[n];
  }

  /** Position form of the splice at a cursor node `q` before `at` whose
      successor lies at or past `at`. */
  lemma InsertAtCursorPositions<V>(s: seq<Entry<V>>, at: nat, e: Entry<V>, q: int, lvl: nat)
    requires at <= |s|
    requires -1 <= q < at
    requires lvl < e.height
    requires at <= NextIndex(s, q + 1, lvl)
    ensures NextIndex(InsertAt(s, at, e), q + 1, lvl) == at
    ensures PtrAt(InsertAt(s, at, e), NextIndex(InsertAt(s, at, e), at + 1, lvl)) ==
              PtrAt(s, NextIndex(s, q + 1, lvl))
  {
    var r := InsertAt(s, at, e);
    var n := NextIndex(s, q + 1, lvl);
    assert NextIndex(r, q + 1, lvl) == at by {
      NextIndexInsertBefore(s, at, e, q + 1, lvl);
    }
    assert NextIndex(r, at + 1, lvl) == n + 1 by {
      NextIndexInsertAfter(s, at, e, at, lvl);
      NextIndexSkip(s, q + 1, at, lvl);
    }
    PtrAtAfterInsert(s, at, e, n);
  }

  /** Position form of the splice seen from any other linked position. */
  lemma InsertElsewherePositions<V>(s: seq<Entry<V>>, at: nat, e: Entry<V>, q: int, q': int, lvl: nat)
    requires at <= |s|
    requires -1 <= q < |s|
    requires q' == if q < at then q else q + 1
    requires q < at && at <= NextIndex(s, q + 1, lvl) ==> e.height <= lvl
    ensures PtrAt(InsertAt(s, at, e), NextIndex(InsertAt(s, at, e), q' + 1, lvl)) ==
              PtrAt(s, NextIndex(s, q + 1, lvl))
  {
    var r := InsertAt(s, at, e);
    var n := NextIndex(s, q + 1, lvl);
    if at <= q {
      assert NextIndex(r, q' + 1, lvl) == n + 1 by {
        NextIndexInsertAfter(s, at, e, q + 1, lvl);
      }
      PtrAtAfterInsert(s, at, e, n);
    } else {
      NextIndexInsertBefore(s, at, e, q + 1, lvl);
      if n < at {
        PtrAtBeforeInsert(s, at, e, n);
      } else {
        PtrAtAfterInsert(s, at, e, n);
      }
    }
  }

  /** At a level the new tower reaches, the cursor node now links to the
      new node. */
  lemma InsertLinkToNew<V>(s: seq<Entry<V>>, e: Entry<V>, c: Ptr, lvl: nat)
    requires Sorted(s)
    requires e.key !in Keys(s)
    requires lvl < e.height
    requires Precedes(s, c, lvl, e.key)
    ensures Link(InsertAt(s, LowerBound(s, e.key), e), c, lvl) == Node(e.key)
  {
    var at := LowerBound(s, e.key);
    var r := InsertAt(s, at, e);
    PrecedesPositions(s, c, lvl, e.key);
    var q := PosOf(s, c);
    assert Link(r, c, lvl) == PtrAt(r, NextIndex(r, q + 1, lvl)) by {
      PosAfterInsert(s, e, c, at, r);
      LinkByPosition(r, c, lvl, q);
    }
    assert NextIndex(r, q + 1, lvl) == at by {
      InsertAtCursorPositions(s, at, e, q, lvl);
    }
    assert r[at] == e;
  }

  /** At a level the new tower reaches, the new node links to where the
      cursor node linked before. */
  lemma InsertLinkFromNew<V>(s: seq<Entry<V>>, e: Entry<V>, c: Ptr, lvl: nat)
    requires Sorted(s)
    requires e.key !in Keys(s)
    requires lvl < e.height
    requires Precedes(s, c, lvl, e.key)
    ensures Link(InsertAt(s, LowerBound(s, e.key), e), Node(e.key), lvl) == Link(s, c, lvl)
  {
    var at := LowerBound(s, e.key);
    var r := InsertAt(s, at, e);
    PrecedesPositions(s, c, lvl, e.key);
    var q := PosOf(s, c);
    assert Link(r, Node(e.key), lvl) == PtrAt(r, NextIndex(r, at + 1, lvl)) by {
      PosOfInserted(s, e, at, r);
      LinkByPosition(r, Node(e.key), lvl, at);
    }
    assert PtrAt(r, NextIndex(r, at + 1, lvl)) == PtrAt(s, NextIndex(s, q + 1, lvl)) by {
      InsertAtCursorPositions(s, at, e, q, lvl);
    }
    LinkByPosition(s, c, lvl, q);
  }

  /** Only one linked reference at a level has its link reach past the
      lower bound of an absent key: the predecessor. */
  lemma PredecessorUnique<V>(s: seq<Entry<V>>, p: Ptr, c: Ptr, lvl: nat, key: int)
    requires Sorted(s)
    requires key !in Keys(s)
    requires Linked(s, p, lvl)
    requires Precedes(s, c, lvl, key)
    requires p.Node? ==> p.key in Keys(s)
    requires PosOf(s, p) < LowerBound(s, key) <= NextIndex(s, PosOf(s, p) + 1, lvl)
    ensures p == c
  {
    PrecedesPositions(s, c, lvl, key);
    PredecessorPosition(s, PosOf(s, p), PosOf(s, c), lvl, LowerBound(s, key));
  }

  /** Two positions on level `lvl` before `at` whose next towers both lie
      at or past `at` are the same position. */
  lemma PredecessorPosition<V>(s: seq<Entry<V>>, q: int, qc: int, lvl: nat, at: nat)
    requires -1 <= q < |s| && -1 <= qc < |s|
    requires 0 <= q ==> lvl < s[q].height
    requires 0 <= qc ==> lvl < s[qc].height
    requires q < at <= NextIndex(s, q + 1, lvl)
    requires qc < at <= NextIndex(s, qc + 1, lvl)
    ensures q == qc
  {
    NextIndexSkip(s, q + 1, at, lvl);
    NextIndexSkip(s, qc + 1, at, lvl);
    SameSuccessorSamePosition(s, q, qc, lvl);
  }

  /** A link whose reach does not span the new node's position at a level
      the new tower reaches is unchanged by the splice. */
  lemma InsertLinkUnspanned<V>(s: seq<Entry<V>>, e: Entry<V>, p: Ptr, lvl: nat)
    requires Sorted(s)
    requires e.key !in Keys(s)
    requires p == Header || (p.Node? && p.key in Keys(s))
    requires PosOf(s, p) < LowerBound(s, e.key) <= NextIndex(s, PosOf(s, p) + 1, lvl) ==> e.height <= lvl
    ensures Link(InsertAt(s, LowerBound(s, e.key), e), p, lvl) == Link(s, p, lvl)
  {
    if PosOf(s, p) < LowerBound(s, e.key) {
      InsertLinkBefore(s, e, p, lvl);
    } else {
      InsertLinkAfter(s, e, p, lvl);
    }
  }

  lemma InsertLinkBefore<V>(s: seq<Entry<V>>, e: Entry<V>, p: Ptr, lvl: nat)
    requires Sorted(s)
    requires e.key !in Keys(s)
    requires p == Header || (p.Node? && p.key in Keys(s))
    requires PosOf(s, p) < LowerBound(s, e.key)
    requires LowerBound(s, e.key) <= NextIndex(s, PosOf(s, p) + 1, lvl) ==> e.height <= lvl
    ensures Link(InsertAt(s, LowerBound(s, e.key), e), p, lvl) == Link(s, p, lvl)
  {
    var at := LowerBound(s, e.key);
    var r := InsertAt(s, at, e);
    var q := PosOf(s, p);
    PosAfterInsert(s, e, p, at, r);
    LinkByPosition(r, p, lvl, q);
    InsertElsewherePositions(s, at, e, q, q, lvl);
    LinkByPosition(s, p, lvl, q);
  }

  lemma InsertLinkAfter<V>(s: seq<Entry<V>>, e: Entry<V>, p: Ptr, lvl: nat)
    requires Sorted(s)
    requires e.key !in Keys(s)
    requires p.Node? && p.key in Keys(s)
    requires LowerBound(s, e.key) <= PosOf(s, p)
    ensures Link(InsertAt(s, LowerBound(s, e.key), e), p, lvl) == Link(s, p, lvl)
  {
    var at := LowerBound(s, e.key);
    var r := InsertAt(s, at, e);
    var q := PosOf(s, p);
    PosAfterInsert(s, e, p, at, r);
    LinkByPosition(r, p, lvl, q + 1);
    InsertElsewherePositions(s, at, e, q, q + 1, lvl);
    LinkByPosition(s, p, lvl, q);
  }

  /** Every other link a traversal can follow is unchanged by the splice. */
  lemma InsertLinkElsewhere<V>(s: seq<Entry<V>>, e: Entry<V>, c: Ptr, p: Ptr, lvl: nat)
    requires Sorted(s)
    requires e.key !in Keys(s)
    requires Linked(s, p, lvl)
    requires lvl < e.height ==> Precedes(s, c, lvl, e.key) && p != c
    ensures Link(InsertAt(s, LowerBound(s, e.key), e), p, lvl) == Link(s, p, lvl)
  {
    var at := LowerBound(s, e.key);
    assert p.Node? ==> p.key in Keys(s);
    var q := PosOf(s, p);
    assert q < at <= NextIndex(s, q + 1, lvl) ==> e.height <= lvl by {
      if lvl < e.height && q < at <= NextIndex(s, q + 1, lvl) {
        PredecessorUnique(s, p, c, lvl, e.key);
      }
    }
    InsertLinkUnspanned(s, e, p, lvl);
  }

  /** A cursor slot above the old list height holds the header, whose link
      at such a level is null, so it is a valid predecessor for any key. */
  lemma HeaderPrecedesAboveHeight<V>(l: SkipList<V>, lvl: nat, key: int)
    requires Valid(l)
    requires l.curHeight <= lvl
    ensures Precedes(l.entries, Header, lvl, key)
  {
    assert NextIndex(l.entries, 0, lvl) == |l.entries|;
  }

  /** The links after `insert` of a new key are those the source's linking
      loop writes: at each level below the new height the cursor node links
      to the new node and the new node to the cursor node's old successor;
      every other link stays; and the new node is on exactly the levels
      below its height. */
  lemma {:induction false} InsertNewLinks<V>(l: SkipList<V>, key: int, value: V, height: int, pre: seq<Ptr>)
    requires Valid(l)
    requires key !in Keys(l.entries)
    requires 1 <= height <= l.maxLevel
    requires |pre| == l.maxLevel
    requires forall i :: 0 <= i < l.curHeight ==> Precedes(l.entries, pre[i], i, key)
    ensures var r := InsertNew(l, key, value, height, pre).entries;
            var c := RaiseCursor(pre, l.curHeight, height);
            forall lvl :: 0 <= lvl < height ==>
              Link(r, c[lvl], lvl) == Node(key) && Link(r, Node(key), lvl) == Link(l.entries, c[lvl], lvl)
    ensures var r := InsertNew(l, key, value, height, pre).entries;
            var c := RaiseCursor(pre, l.curHeight, height);
            forall lvl: nat, p :: Linked(l.entries, p, lvl) && (height <= lvl || p != c[lvl]) ==>
              Link(r, p, lvl) == Link(l.entries, p, lvl)
    ensures var r := InsertNew(l, key, value, height, pre).entries;
            forall lvl: nat :: OnLevel(r, key, lvl) <==> lvl < height
  {
    var s := l.entries;
    var e := Entry(key, value, height);
    var r := InsertNew(l, key, value, height, pre).entries;
    var c := RaiseCursor(pre, l.curHeight, height);
    assert r == InsertAt(s, LowerBound(s, key), e);
    forall lvl | 0 <= lvl < height ensures Precedes(s, c[lvl], lvl, key) {
      if l.curHeight <= lvl { HeaderPrecedesAboveHeight(l, lvl, key); }
    }
    forall lvl | 0 <= lvl < height
      ensures Link(r, c[lvl], lvl) == Node(key) && Link(r, Node(key), lvl) == Link(s, c[lvl], lvl)
    {
      InsertLinkToNew(s, e, c[lvl], lvl);
      InsertLinkFromNew(s, e, c[lvl], lvl);
    }
    forall lvl: nat, p | Linked(s, p, lvl) && (height <= lvl || p != c[lvl])
      ensures Link(r, p, lvl) == Link(s, p, lvl)
    {
      InsertLinkElsewhere(s, e, if lvl < height then c[lvl] else Null, p, lvl);
    }
    InsertAtLowerBound(s, e);
  }

  // ---------------------------------------------------------------------
  // remove

  /** Two references on level `lvl` whose links meet the same node are the
      same reference. */
  lemma LinkedSameSuccessor<V>(s: seq<Entry<V>>, p1: Ptr, p2: Ptr, lvl: nat)
    requires Sorted(s)
    requires Linked(s, p1, lvl) && Linked(s, p2, lvl)
    requires Link(s, p1, lvl) == Link(s, p2, lvl)
    ensures p1 == p2
  {
    var q1 := PosOf(s, p1);
    var q2 := PosOf(s, p2);
    LinkByPosition(s, p1, lvl, q1);
    LinkByPosition(s, p2, lvl, q2);
    var n1 := NextIndex(s, q1 + 1, lvl);
    var n2 := NextIndex(s, q2 + 1, lvl);
    assert n1 == n2 by {
      if n1 < |s| && n2 < |s| { IndexOfSorted(s, n1); IndexOfSorted(s, n2); }
    }
    SameSuccessorSamePosition(s, q1, q2, lvl);
  }

  /** A reference whose link leads to the node at position `d` sits before it. */
  lemma LinkToPosition<V>(s: seq<Entry<V>>, c: Ptr, lvl: nat, d: nat)
    requires Sorted(s)
    requires d < |s|
    requires c == Header || (c.Node? && c.key in Keys(s))
    requires Link(s, c, lvl) == Node(s[d].key)
    ensures PosOf(s, c) < d
    ensures NextIndex(s, PosOf(s, c) + 1, lvl) == d
  {
    var q := PosOf(s, c);
    LinkByPosition(s, c, lvl, q);
    var n := NextIndex(s, q + 1, lvl);
    IndexOfSorted(s, n);
    IndexOfSorted(s, d);
  }

  lemma PtrAtAfterRemove<V>(s: seq<Entry<V>>, d: nat, m: nat)
    requires d < m <= |s|
    ensures PtrAt(RemoveAt(s, d), m - 1) == PtrAt(s, m)
  {
    if m < |s| { assert RemoveAt(s, d)[m - 1] == s[m]; }
  }

  lemma PtrAtBeforeRemove<V>(s: seq<Entry<V>>, d: nat, m: nat)
    requires m < d < |s|
    ensures PtrAt(RemoveAt(s, d), m) == PtrAt(s, m)
  {
    assert RemoveAt(s, d)[m] == s[m];
  }

  /** Where a surviving node sits after the unlinking. */
  lemma PosAfterRemove<V>(s: seq<Entry<V>>, d: nat, p: Ptr, r: seq<Entry<V>>)
    requires Sorted(s)
    requires d < |s| && r == RemoveAt(s, d)
    requires p == Header || (p.Node? && p.key in Keys(s) && p.key != s[d].key)
    ensures p == Header || (p.Node? && p.key in Keys(r))
    ensures PosOf(s, p) < d ==> PosOf(r, p) == PosOf(s, p)
    ensures d < PosOf(s, p) ==> PosOf(r, p) == PosOf(s, p) - 1
  {
    RemoveAtKeys(s, d);
    if p.Node? {
      var q := PosOf(s, p);
      if q < d {
        assert r[q] == s[q];
        IndexOfSorted(r, q);
      } else {
        assert r[q - 1] == s[q];
        IndexOfSorted(r, q - 1);
      }
    }
  }

  /** Position form of the unlinking at a predecessor `q` of position `d`. */
  lemma RemoveCutPositions<V>(s: seq<Entry<V>>, d: nat, q: int, lvl: nat)
    requires d < |s|
    requires -1 <= q < d
    requires NextIndex(s, q + 1, lvl) == d
    ensures PtrAt(RemoveAt(s, d), NextIndex(RemoveAt(s, d), q + 1, lvl)) ==
              PtrAt(s, NextIndex(s, d + 1, lvl))
  {
    var r := RemoveAt(s, d);
    var m := NextIndex(s, d + 1, lvl);
    assert NextIndex(r, q + 1, lvl) == m - 1 by {
      NextIndexRemoveBefore(s, d, q + 1, lvl);
    }
    PtrAtAfterRemove(s, d, m);
  }

  /** Position form of the unlinking seen from any other position `q`,
      which moves to `q'`. */
  lemma RemoveElsewherePositions<V>(s: seq<Entry<V>>, d: nat, q: int, q': int, lvl: nat)
    requires d < |s|
    requires -1 <= q < |s| && q != d
    requires q' == if q < d then q else q - 1
    requires q < d ==> NextIndex(s, q + 1, lvl) != d
    ensures PtrAt(RemoveAt(s, d), NextIndex(RemoveAt(s, d), q' + 1, lvl)) ==
              PtrAt(s, NextIndex(s, q + 1, lvl))
  {
    var r := RemoveAt(s, d);
    var n := NextIndex(s, q + 1, lvl);
    if q < d {
      assert NextIndex(r, q' + 1, lvl) == if n < d then n else n - 1 by {
        NextIndexRemoveBefore(s, d, q + 1, lvl);
      }
      if n < d {
        PtrAtBeforeRemove(s, d, n);
      } else {
        PtrAtAfterRemove(s, d, n);
      }
    } else {
      assert NextIndex(r, q' + 1, lvl) == n - 1 by {
        NextIndexRemoveAfter(s, d, q, lvl);
      }
      PtrAtAfterRemove(s, d, n);
    }
  }

  /** The predecessor of the removed node now links to the removed node's
      old successor. */
  lemma RemoveLinkAtCut<V>(s: seq<Entry<V>>, d: nat, c: Ptr, lvl: nat)
    requires Sorted(s)
    requires d < |s|
    requires c == Header || (c.Node? && c.key in Keys(s))
    requires Link(s, c, lvl) == Node(s[d].key)
    ensures Link(RemoveAt(s, d), c, lvl) == Link(s, Node(s[d].key), lvl)
  {
    var r := RemoveAt(s, d);
    LinkToPosition(s, c, lvl, d);
    var q := PosOf(s, c);
    PosAfterRemove(s, d, c, r);
    LinkByPosition(r, c, lvl, q);
    RemoveCutPositions(s, d, q, lvl);
    IndexOfSorted(s, d);
    LinkByPosition(s, Node(s[d].key), lvl, d);
  }

  lemma RemoveLinkBefore<V>(s: seq<Entry<V>>, d: nat, p: Ptr, lvl: nat)
    requires Sorted(s)
    requires d < |s|
    requires p == Header || (p.Node? && p.key in Keys(s))
    requires PosOf(s, p) < d
    requires Link(s, p, lvl) != Node(s[d].key)
    ensures Link(RemoveAt(s, d), p, lvl) == Link(s, p, lvl)
  {
    var r := RemoveAt(s, d);
    var q := PosOf(s, p);
    PosAfterRemove(s, d, p, r);
    LinkByPosition(r, p, lvl, q);
    LinkByPosition(s, p, lvl, q);
    RemoveElsewherePositions(s, d, q, q, lvl);
  }

  lemma RemoveLinkAfter<V>(s: seq<Entry<V>>, d: nat, p: Ptr, lvl: nat)
    requires Sorted(s)
    requires d < |s|
    requires p.Node? && p.key in Keys(s)
    requires d < PosOf(s, p)
    ensures Link(RemoveAt(s, d), p, lvl) == Link(s, p, lvl)
  {
    var r := RemoveAt(s, d);
    var q := PosOf(s, p);
    PosAfterRemove(s, d, p, r);
    LinkByPosition(r, p, lvl, q - 1);
    LinkByPosition(s, p, lvl, q);
    RemoveElsewherePositions(s, d, q, q - 1, lvl);
  }

  /** Every link other than the removed node's own and its predecessors'
      is unchanged by the unlinking. */
  lemma RemoveLinkElsewhere<V>(s: seq<Entry<V>>, d: nat, p: Ptr, lvl: nat)
    requires Sorted(s)
    requires d < |s|
    requires p == Header || (p.Node? && p.key in Keys(s))
    requires p != Node(s[d].key)
    requires Link(s, p, lvl) != Node(s[d].key)
    ensures Link(RemoveAt(s, d), p, lvl) == Link(s, p, lvl)
  {
    if PosOf(s, p) < d {
      RemoveLinkBefore(s, d, p, lvl);
    } else {
      IndexOfSorted(s, d);
      RemoveLinkAfter(s, d, p, lvl);
    }
  }

  /** The links after `remove` of a present key are those the source's loop
      writes: at each level of the removed tower the recorded predecessor now
      links to the removed node's successor, and every other link of a
      surviving reference stays. */
  lemma RemoveLinks<V>(l: SkipList<V>, key: int)
    requires Valid(l)
    requires key in Keys(l.entries)
    ensures forall lvl :: 0 <= lvl < l.maxLevel && RemoveDescent(l, key).cut[lvl] != Null ==>
              Link(Remove(l, key).list.entries, RemoveDescent(l, key).cut[lvl], lvl) ==
                Link(l.entries, Node(key), lvl)
    ensures forall lvl: nat, p ::
              && Linked(l.entries, p, lvl) && p != Node(key)
              && (l.maxLevel <= lvl || p != RemoveDescent(l, key).cut[lvl]) ==>
                Link(Remove(l, key).list.entries, p, lvl) == Link(l.entries, p, lvl)
  {
    var s := l.entries;
    var d := IndexOf(s, key);
    var r := Remove(l, key).list.entries;
    var w := RemoveDescent(l, key);
    assert r == RemoveAt(s, d);
    forall lvl | 0 <= lvl < l.maxLevel && w.cut[lvl] != Null
      ensures Link(r, w.cut[lvl], lvl) == Link(s, Node(key), lvl)
    {
      RemoveLinkAtCut(s, d, w.cut[lvl], lvl);
    }
    forall lvl: nat, p | Linked(s, p, lvl) && p != Node(key) && (l.maxLevel <= lvl || p != w.cut[lvl])
      ensures Link(r, p, lvl) == Link(s, p, lvl)
    {
      assert Link(s, p, lvl) != Node(key) by {
        if Link(s, p, lvl) == Node(key) {
          RemoveLinkTarget(l, key, p, lvl);
        }
      }
      RemoveLinkElsewhere(s, d, p, lvl);
    }
  }

  /** A reference on level `lvl` whose link leads to the node of `key` is
      the predecessor the descent of `remove` records at that level. */
  lemma RemoveLinkTarget<V>(l: SkipList<V>, key: int, p: Ptr, lvl: nat)
    requires Valid(l)
    requires Linked(l.entries, p, lvl)
    requires Link(l.entries, p, lvl) == Node(key)
    ensures lvl < l.maxLevel && p == RemoveDescent(l, key).cut[lvl]
  {
    var s := l.entries;
    var w := RemoveDescent(l, key);
    var q := PosOf(s, p);
    LinkByPosition(s, p, lvl, q);
    var n := NextIndex(s, q + 1, lvl);
    IndexOfSorted(s, n);
    assert OnLevel(s, key, lvl);
    LinkedSameSuccessor(s, p, w.cut[lvl], lvl);
  }
}
