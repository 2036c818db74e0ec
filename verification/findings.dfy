/** Two operations as the source writes them, next to the corrected
    definitions the rest of the model uses.

    `remove` as written decrements the unsigned counter and reports success
    whether or not it found the key; `clear` as written frees every node but
    leaves the header's forward links pointing at them. */
module Findings {
  import opened Towers
  import opened Edits
  import opened SkipLists

  /** `count_` is a `std::size_t`; on a 64-bit target it wraps modulo 2^64. */
  const SizeModulus: nat := 0x1_0000_0000_0000_0000

  /** `--count_` on a `std::size_t`. */
  function DecrementSize(c: nat): (r: nat)
    requires c < SizeModulus
    ensures r < SizeModulus
    ensures (r + 1) % SizeModulus == c
  {
    if c == 0 then SizeModulus - 1 else c - 1
  }

  // ---------------------------------------------------------------------
  // remove

  /** `remove` as written: the descent unlinks the key wherever it occurs,
      then the counter is decremented and success is reported regardless of
      whether a node was found. */
  function RemoveAsWritten<V>(l: SkipList<V>, key: int): (r: Removal<V>)
    requires Valid(l)
    requires l.count < SizeModulus
    ensures r.removed
    ensures (r.list.count + 1) % SizeModulus == l.count
    ensures Model(r.list) == Model(l) - {key}
  {
    var unlinked := Remove(l, key).list;
    Removal(unlinked.(count := DecrementSize(l.count)), true)
  }

  /** On a present key the source's `remove` does what its documentation
      promises: it agrees with the corrected `Remove`. */
  lemma RemoveAsWrittenPresent<V>(l: SkipList<V>, key: int)
    requires Valid(l)
    requires l.count < SizeModulus
    requires key in Model(l)
    ensures RemoveAsWritten(l, key) == Remove(l, key)
  {
  }

  /** On an absent key the source's `remove` reports a removal that did not
      happen and leaves a counter that no longer matches the level-0 chain;
      the corrected `Remove` reports false and leaves the list as it was. */
  lemma RemoveAsWrittenAbsent<V>(l: SkipList<V>, key: int)
    requires Valid(l)
    requires l.count < SizeModulus
    requires key !in Model(l)
    ensures RemoveAsWritten(l, key).removed && !Remove(l, key).removed
    ensures RemoveAsWritten(l, key).list.count != |Chain(RemoveAsWritten(l, key).list.entries, 0, 0)|
    ensures !Valid(RemoveAsWritten(l, key).list)
    ensures Remove(l, key).list == l
  {
    var r := RemoveAsWritten(l, key);
    assert r.list.entries == l.entries;
    ChainLevelZero(l.entries, 0);
  }

  /** The smallest witness: removing any key from a fresh list wraps the
      counter around to 2^64 - 1. */
  lemma RemoveFromEmptyWraps<V>(key: int)
    ensures var l := New<V>(DefaultMaxLevel).value;
            RemoveAsWritten(l, key).list.count == SizeModulus - 1
            && Remove(l, key).list.count == 0
  {
    var l := New<V>(DefaultMaxLevel).value;
    assert Keys(l.entries) == {};
  }

  // ---------------------------------------------------------------------
  // clear

  /** What `clear` as written leaves behind: the header's forward links per
      level, the nodes still allocated, and the counter. */
  datatype Cleared<V> = Cleared(header: seq<Ptr>, live: seq<Entry<V>>, count: nat)

  /** `clear` as written: the level-0 walk frees every node and counts it
      out, but nothing resets the header, whose links keep their old
      targets. */
  function ClearAsWritten<V>(l: SkipList<V>): (r: Cleared<V>)
    requires Valid(l)
    ensures r.live == [] && r.count == 0
    ensures |r.header| == l.maxLevel
    ensures forall i :: 0 <= i < l.maxLevel ==>
              r.header[i] == (if |Chain(l.entries, 0, i)| == 0 then Null else Node(Chain(l.entries, 0, i)[0]))
  {
    ChainLevelZero(l.entries, 0);
    var header := seq(l.maxLevel, i requires 0 <= i < l.maxLevel => Link(l.entries, Header, i));
    assert forall i :: 0 <= i < l.maxLevel ==>
             header[i] == (if |Chain(l.entries, 0, i)| == 0 then Null else Node(Chain(l.entries, 0, i)[0])) by {
      forall i | 0 <= i < l.maxLevel
        ensures header[i] == (if |Chain(l.entries, 0, i)| == 0 then Null else Node(Chain(l.entries, 0, i)[0]))
      {
        ChainHead(l.entries, 0, i);
      }
    }
    Cleared(header, [], Drain(l.entries, 0, l.count))
  }

  /** After the source's `clear` on a non-empty list the header still links
      to the first node at level 0, which has been freed: a later `find_node`
      would follow a dangling pointer. The corrected `Clear` leaves every
      header link null. */
  lemma ClearAsWrittenDangles<V>(l: SkipList<V>)
    requires Valid(l)
    requires |l.entries| > 0
    ensures ClearAsWritten(l).header[0] == Node(l.entries[0].key)
    ensures l.entries[0].key !in Keys(ClearAsWritten(l).live)
    ensures Link(Clear(l).entries, Header, 0) == Null
  {
    assert NextIndex(l.entries, 0, 0) == 0;
    assert Chain(l.entries, 0, 0)[0] == l.entries[0].key;
  }
}
