/** The per-level views of a valid skip list: what the header reaches by
    following the links of one level. */
module Levels {
  import opened Towers
  import opened SkipLists

  /** The keys on level `lvl`, in the order the header reaches them. */
  function Level<V>(l: SkipList<V>, lvl: nat): seq<int> {
    Chain(l.entries, 0, lvl)
  }

  /** The shape invariant of each level: the header's link starts the
      level, the level is strictly increasing, it holds exactly the nodes
      whose towers reach it, and the levels at or above the height in use
      are empty. */
  lemma LevelShape<V>(l: SkipList<V>, lvl: nat)
    requires Valid(l)
    ensures Link(l.entries, Header, lvl) == (if |Level(l, lvl)| == 0 then Null else Node(Level(l, lvl)[0]))
    ensures forall a, b :: 0 <= a < b < |Level(l, lvl)| ==> Level(l, lvl)[a] < Level(l, lvl)[b]
    ensures forall k :: k in Level(l, lvl) <==> OnLevel(l.entries, k, lvl)
    ensures l.curHeight <= lvl ==> Level(l, lvl) == []
  {
    var s := l.entries;
    ChainHead(s, 0, lvl);
    ChainIncreasing(s, 0, lvl);
    forall k ensures k in Level(l, lvl) <==> OnLevel(s, k, lvl) {
      ChainMembers(s, 0, lvl, k);
      if k in Keys(s) {
        var i := IndexOf(s, k);
        IndexOfSorted(s, i);
      }
    }
  }

  /** Each level is a sub-list of the one below it: a tower that reaches
      level `lvl + 1` also reaches level `lvl`. */
  lemma LevelsNested<V>(l: SkipList<V>, lvl: nat, k: int)
    requires Valid(l)
    requires k in Level(l, lvl + 1)
    ensures k in Level(l, lvl)
  {
    LevelShape(l, lvl + 1);
    LevelShape(l, lvl);
  }

  /** Level 0 holds every entry, so its length is the counter. */
  lemma LevelZeroCount<V>(l: SkipList<V>)
    requires Valid(l)
    ensures |Level(l, 0)| == l.count
    ensures forall k :: k in Level(l, 0) <==> k in Model(l)
  {
    ChainLevelZero(l.entries, 0);
    LevelShape(l, 0);
    forall k ensures k in Level(l, 0) <==> k in Model(l) {
      AsMapDomain(l.entries);
      if k in Keys(l.entries) {
        IndexOfSorted(l.entries, IndexOf(l.entries, k));
      }
    }
  }
}
