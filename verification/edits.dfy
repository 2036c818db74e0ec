/** The three ways the source changes level 0: splicing a new node in,
    overwriting a node's value, and unlinking a node. Each is stated on the
    entry sequence, together with its effect on the represented map. */
module Edits {
  import opened Towers

  /** `s` with `e` spliced in at position `at`. */
  function InsertAt<V>(s: seq<Entry<V>>, at: nat, e: Entry<V>): (r: seq<Entry<V>>)
    requires at <= |s|
    ensures |r| == |s| + 1
  {
    seq(|s| + 1, j requires 0 <= j <= |s| => if j < at then s[j] else if j == at then e else s[j - 1])
  }

  /** `s` without the entry at position `i`. */
  function RemoveAt<V>(s: seq<Entry<V>>, i: nat): (r: seq<Entry<V>>)
    requires i < |s|
    ensures |r| + 1 == |s|
  {
    seq(|s| - 1, j requires 0 <= j < |s| - 1 => if j < i then s[j] else s[j + 1])
  }

  /** `s` with the value of the entry at position `i` replaced by `v`. */
  function SetValueAt<V>(s: seq<Entry<V>>, i: nat, v: V): (r: seq<Entry<V>>)
    requires i < |s|
    ensures |r| == |s|
  {
    s[i := s[i].(value := v)]
  }

  /** Splicing in a tower of height in 1..`top` keeps every height in 1..`top`. */
  lemma InsertAtHeights<V>(s: seq<Entry<V>>, at: nat, e: Entry<V>, top: int)
    requires at <= |s|
    requires forall j :: 0 <= j < |s| ==> 1 <= s[j].height <= top
    requires 1 <= e.height <= top
    ensures var r := InsertAt(s, at, e);
            forall j :: 0 <= j < |r| ==> 1 <= r[j].height <= top
  {
    var r := InsertAt(s, at, e);
    forall j | 0 <= j < |r| ensures 1 <= r[j].height <= top {
      if j > at { assert r[j] == s[j - 1]; }
      else if j < at { assert r[j] == s[j]; }
    }
  }

  /** Unlinking a node keeps every other tower's height. */
  lemma RemoveAtHeights<V>(s: seq<Entry<V>>, i: nat, top: int)
    requires i < |s|
    requires forall j :: 0 <= j < |s| ==> 1 <= s[j].height <= top
    ensures var r := RemoveAt(s, i);
            forall j :: 0 <= j < |r| ==> 1 <= r[j].height <= top
  {
    var r := RemoveAt(s, i);
    forall j | 0 <= j < |r| ensures 1 <= r[j].height <= top {
      if j < i { assert r[j] == s[j]; } else { assert r[j] == s[j + 1]; }
    }
  }

  /** An entry of a sorted sequence is found again by its key. */
  lemma EntryOfAt<V>(s: seq<Entry<V>>, j: nat)
    requires Sorted(s)
    requires j < |s|
    ensures s[j].key in Keys(s)
    ensures EntryOf(s, s[j].key) == s[j]
  {
    IndexOfSorted(s, j);
  }

  /** Two sequences represent maps that agree off `k0` when they store the
      same other nodes. */
  lemma AsMapAgree<V>(s: seq<Entry<V>>, r: seq<Entry<V>>, k0: int)
    requires Keys(r) - {k0} == Keys(s) - {k0}
    requires forall k :: k in Keys(s) && k != k0 ==> k in Keys(r) && EntryOf(r, k) == EntryOf(s, k)
    ensures AsMap(r) - {k0} == AsMap(s) - {k0}
  {
    var mr, ms := AsMap(r) - {k0}, AsMap(s) - {k0};
    assert mr.Keys == Keys(r) - {k0};
    assert ms.Keys == Keys(s) - {k0};
    forall k | k in mr ensures mr[k] == ms[k] {
      assert mr[k] == EntryOf(r, k).value;
    }
  }

  /** A sequence that stores `k0` with value `v` and otherwise the same
      nodes as `s` represents the map of `s` updated at `k0`. */
  lemma AsMapUpdate<V>(s: seq<Entry<V>>, r: seq<Entry<V>>, k0: int, v: V)
    requires Keys(r) == Keys(s) + {k0}
    requires k0 in Keys(r) && EntryOf(r, k0).value == v
    requires forall k :: k in Keys(s) && k != k0 ==> k in Keys(r) && EntryOf(r, k) == EntryOf(s, k)
    ensures AsMap(r) == AsMap(s)[k0 := v]
  {
    var mr, ms := AsMap(r), AsMap(s)[k0 := v];
    assert mr.Keys == Keys(r);
    assert ms.Keys == Keys(s) + {k0};
    forall k | k in mr ensures mr[k] == ms[k] {
      assert mr[k] == EntryOf(r, k).value;
      if k != k0 {
        assert ms[k] == EntryOf(s, k).value;
      }
    }
  }

  lemma InsertAtKeys<V>(s: seq<Entry<V>>, at: nat, e: Entry<V>)
    requires at <= |s|
    ensures Keys(InsertAt(s, at, e)) == Keys(s) + {e.key}
  {
    var r := InsertAt(s, at, e);
    assert r[at] == e;
    forall k | k in Keys(r) ensures k in Keys(s) + {e.key} {
      var j :| 0 <= j < |r| && r[j].key == k;
      if j < at { assert s[j].key == k; }
      else if j > at { assert s[j - 1].key == k; }
    }
    forall k | k in Keys(s) ensures k in Keys(r) {
      var j :| 0 <= j < |s| && s[j].key == k;
      if j < at { assert r[j].key == k; } else { assert r[j + 1].key == k; }
    }
  }

  lemma InsertAtSorted<V>(s: seq<Entry<V>>, e: Entry<V>)
    requires Sorted(s)
    requires e.key !in Keys(s)
    ensures Sorted(InsertAt(s, LowerBound(s, e.key), e))
  {
    var at := LowerBound(s, e.key);
    var r := InsertAt(s, at, e);
    if at < |s| {
      assert s[at].key != e.key by { assert s[at].key in Keys(s); }
    }
    forall a, b | 0 <= a < b < |r| ensures r[a].key < r[b].key {
      if b > at {
        assert r[b] == s[b - 1];
        if a < at {
          assert r[a] == s[a];
        } else if a > at {
          assert r[a] == s[a - 1];
        } else {
          assert s[at].key <= s[b - 1].key;
        }
      } else if b == at {
        assert r[a] == s[a];
      } else {
        assert r[a] == s[a] && r[b] == s[b];
      }
    }
  }

  /** Splicing a new key in at its lower bound keeps level 0 sorted, adds
      exactly that key, and leaves every other node as it was. */
  lemma {:induction false} InsertAtLowerBound<V>(s: seq<Entry<V>>, e: Entry<V>)
    requires Sorted(s)
    requires e.key !in Keys(s)
    ensures var r := InsertAt(s, LowerBound(s, e.key), e);
            && Sorted(r)
            && Keys(r) == Keys(s) + {e.key}
            && EntryOf(r, e.key) == e
            && (forall k :: k in Keys(s) ==> EntryOf(r, k) == EntryOf(s, k))
            && AsMap(r) == AsMap(s)[e.key := e.value]
  {
    var at := LowerBound(s, e.key);
    var r := InsertAt(s, at, e);
    InsertAtSorted(s, e);
    InsertAtKeys(s, at, e);
    EntryOfAt(r, at);
    forall k | k in Keys(s) ensures EntryOf(r, k) == EntryOf(s, k) {
      var j := IndexOf(s, k);
      if j < at { EntryOfAt(r, j); } else { EntryOfAt(r, j + 1); }
    }
    AsMapUpdate(s, r, e.key, e.value);
  }

  lemma RemoveAtKeys<V>(s: seq<Entry<V>>, i: nat)
    requires Sorted(s)
    requires i < |s|
    ensures Sorted(RemoveAt(s, i))
    ensures Keys(RemoveAt(s, i)) == Keys(s) - {s[i].key}
  {
    var r := RemoveAt(s, i);
    forall k | k in Keys(r) ensures k in Keys(s) - {s[i].key} {
      var j :| 0 <= j < |r| && r[j].key == k;
      if j < i { assert s[j].key == k; } else { assert s[j + 1].key == k; }
    }
    forall k | k in Keys(s) - {s[i].key} ensures k in Keys(r) {
      var j :| 0 <= j < |s| && s[j].key == k;
      if j < i { assert r[j].key == k; } else { assert r[j - 1].key == k; }
    }
  }

  /** Unlinking the node at position `i` keeps level 0 sorted, drops exactly
      its key, and leaves every other node as it was. */
  lemma {:induction false} RemoveAtKey<V>(s: seq<Entry<V>>, i: nat)
    requires Sorted(s)
    requires i < |s|
    ensures var r := RemoveAt(s, i);
            && Sorted(r)
            && Keys(r) == Keys(s) - {s[i].key}
            && (forall k :: k in Keys(r) ==> EntryOf(r, k) == EntryOf(s, k))
            && AsMap(r) == AsMap(s) - {s[i].key}
  {
    var r := RemoveAt(s, i);
    RemoveAtKeys(s, i);
    forall k | k in Keys(r) ensures EntryOf(r, k) == EntryOf(s, k) {
      var j := IndexOf(r, k);
      EntryOfAt(r, j);
      if j < i { EntryOfAt(s, j); } else { EntryOfAt(s, j + 1); }
    }
    AsMapAgree(s, r, s[i].key);
    assert AsMap(r) == AsMap(r) - {s[i].key};
  }

  lemma SetValueAtKeys<V>(s: seq<Entry<V>>, i: nat, v: V)
    requires Sorted(s)
    requires i < |s|
    ensures Sorted(SetValueAt(s, i, v))
    ensures Keys(SetValueAt(s, i, v)) == Keys(s)
  {
    var r := SetValueAt(s, i, v);
    assert forall j :: 0 <= j < |s| ==> r[j].key == s[j].key;
    forall k | k in Keys(r) ensures k in Keys(s) {
      var j :| 0 <= j < |r| && r[j].key == k;
      assert s[j].key == k;
    }
    forall k | k in Keys(s) ensures k in Keys(r) {
      var j :| 0 <= j < |s| && s[j].key == k;
      assert r[j].key == k;
    }
  }

  /** Overwriting the value of the node at position `i` changes the map at
      that key only and keeps every key, every height and the order. */
  lemma {:induction false} SetValueAtKey<V>(s: seq<Entry<V>>, i: nat, v: V)
    requires Sorted(s)
    requires i < |s|
    ensures var r := SetValueAt(s, i, v);
            && Sorted(r)
            && Keys(r) == Keys(s)
            && EntryOf(r, s[i].key) == Entry(s[i].key, v, s[i].height)
            && (forall k :: k in Keys(s) && k != s[i].key ==> EntryOf(r, k) == EntryOf(s, k))
            && AsMap(r) == AsMap(s)[s[i].key := v]
  {
    var r := SetValueAt(s, i, v);
    SetValueAtKeys(s, i, v);
    EntryOfAt(r, i);
    forall k | k in Keys(s) && k != s[i].key ensures EntryOf(r, k) == EntryOf(s, k) {
      var j := IndexOf(s, k);
      EntryOfAt(r, j);
    }
    AsMapUpdate(s, r, s[i].key, v);
  }
}
