/** The scenario of the demonstration program, for every outcome of the
    height sampler: three inserts into a default list, two lookups, and a
    removal followed by a repeated removal of the same key. */
module Demo {
  import opened Optional
  import opened SkipLists
  import opened Findings

  /** A default list after the three inserts of the demonstration; `d1`,
      `d2` and `d3` stand for the generator's draws during each insert. */
  function Filled(d1: nat -> nat, d2: nat -> nat, d3: nat -> nat): (r: SkipList<string>)
    ensures Valid(r)
    ensures Model(r) == Stored()
  {
    var l0 := New<string>(DefaultMaxLevel).value;
    var l1 := Insert(l0, 101, "医用外科口罩", d1);
    var l2 := Insert(l1, 98, "C++标准库", d2);
    Insert(l2, 12, "Hello World.", d3)
  }

  /** The map the demonstration builds. */
  function Stored(): map<int, string> {
    map[101 := "医用外科口罩", 98 := "C++标准库", 12 := "Hello World."]
  }

  /** The demonstration stores three distinct keys. */
  lemma StoredSize()
    ensures |Stored()| == 3
  {
    assert Stored().Keys == {101, 98, 12};
  }

  /** Dropping 98 leaves two. */
  lemma StoredWithout98Size()
    ensures |Stored() - {98}| == 2
  {
    assert (Stored() - {98}).Keys == {101, 12};
  }

  /** The counter and the two lookups of the demonstration, for any valid
      list that stores the demonstration's three entries. */
  lemma DemoLookups(l: SkipList<string>)
    requires Valid(l) && Model(l) == Stored()
    ensures Count(l) == 3
    ensures Search(l, 12) == Some("Hello World.")
    ensures Search(l, 98) == Some("C++标准库")
  {
    StoredSize();
  }

  /** Removing 98 succeeds once and leaves two entries; removing it again
      reports failure and changes nothing. */
  lemma DemoRemovals(l: SkipList<string>)
    requires Valid(l) && Model(l) == Stored()
    ensures Remove(l, 98).removed
    ensures Count(Remove(l, 98).list) == 2
    ensures Search(Remove(l, 98).list, 98) == None
    ensures !Remove(Remove(l, 98).list, 98).removed
    ensures Count(Remove(Remove(l, 98).list, 98).list) == 2
  {
    StoredWithout98Size();
  }

  /** The repeated removal of 98 under the source's `remove` as written:
      it reports success and the counter drops to 1 although the list still
      holds two entries. */
  lemma DemoSecondRemovalAsWritten(l: SkipList<string>)
    requires Valid(l) && Model(l) == Stored()
    ensures Count(Remove(l, 98).list) == 2
    ensures RemoveAsWritten(Remove(l, 98).list, 98).removed
    ensures RemoveAsWritten(Remove(l, 98).list, 98).list.count == 1
  {
    DemoRemovals(l);
  }

  /** The whole scenario, whatever heights the sampler draws. The one
      removal the demonstration performs finds its key, so there the source's
      `remove` as written agrees with the corrected `Remove`. */
  lemma DemoScenario(d1: nat -> nat, d2: nat -> nat, d3: nat -> nat)
    ensures Count(Filled(d1, d2, d3)) == 3
    ensures Search(Filled(d1, d2, d3), 12) == Some("Hello World.")
    ensures Search(Filled(d1, d2, d3), 98) == Some("C++标准库")
    ensures Remove(Filled(d1, d2, d3), 98).removed
    ensures Count(Remove(Filled(d1, d2, d3), 98).list) == 2
    ensures Search(Remove(Filled(d1, d2, d3), 98).list, 98) == None
    ensures !Remove(Remove(Filled(d1, d2, d3), 98).list, 98).removed
    ensures Count(Remove(Remove(Filled(d1, d2, d3), 98).list, 98).list) == 2
    ensures RemoveAsWritten(Filled(d1, d2, d3), 98) == Remove(Filled(d1, d2, d3), 98)
  {
    DemoLookups(Filled(d1, d2, d3));
    DemoRemovals(Filled(d1, d2, d3));
    RemoveAsWrittenPresent(Filled(d1, d2, d3), 98);
  }
}
