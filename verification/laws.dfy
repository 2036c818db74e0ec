/** How the operations compose: what a lookup sees after each mutation. */
module Laws {
  import opened Optional
  import opened Towers
  import opened SkipLists

  /** After `insert`, `search` finds the value just written. */
  lemma SearchAfterInsert<V>(l: SkipList<V>, key: int, value: V, draw: nat -> nat)
    requires Valid(l)
    ensures Search(Insert(l, key, value, draw), key) == Some(value)
  {
  }

  /** `insert` leaves the answer for every other key as it was. */
  lemma SearchAfterInsertOther<V>(l: SkipList<V>, key: int, value: V, draw: nat -> nat, k: int)
    requires Valid(l)
    requires k != key
    ensures Search(Insert(l, key, value, draw), k) == Search(l, k)
  {
    var r := Insert(l, key, value, draw);
    assert Model(r) == Model(l)[key := value];
  }

  /** Overwriting a present key keeps the counter and the set of keys. */
  lemma OverwriteKeepsKeys<V>(l: SkipList<V>, key: int, value: V, draw: nat -> nat)
    requires Valid(l)
    requires Contains(l, key)
    ensures Count(Insert(l, key, value, draw)) == Count(l)
    ensures Keys(Insert(l, key, value, draw).entries) == Keys(l.entries)
  {
    var r := Insert(l, key, value, draw);
    AsMapDomain(l.entries);
    AsMapDomain(r.entries);
  }

  /** After `remove`, the key is absent. */
  lemma ContainsAfterRemove<V>(l: SkipList<V>, key: int)
    requires Valid(l)
    ensures !Contains(Remove(l, key).list, key)
  {
  }

  /** `remove` leaves the answer for every other key as it was. */
  lemma SearchAfterRemoveOther<V>(l: SkipList<V>, key: int, k: int)
    requires Valid(l)
    requires k != key
    ensures Search(Remove(l, key).list, k) == Search(l, k)
  {
    var r := Remove(l, key).list;
    assert Model(r) == Model(l) - {key};
  }

  /** Removing a key that was just inserted as new restores the map and the
      counter. */
  lemma RemoveUndoesInsert<V>(l: SkipList<V>, key: int, value: V, draw: nat -> nat)
    requires Valid(l)
    requires !Contains(l, key)
    ensures Remove(Insert(l, key, value, draw), key).removed
    ensures Model(Remove(Insert(l, key, value, draw), key).list) == Model(l)
    ensures Count(Remove(Insert(l, key, value, draw), key).list) == Count(l)
  {
    var r := Insert(l, key, value, draw);
    assert Model(r) == Model(l)[key := value];
    var d := Remove(r, key).list;
    assert Model(d) == Model(r) - {key};
    UpdateThenDrop(Model(l), key, value);
  }

  /** Adding an absent key and dropping it again gives back the map. */
  lemma UpdateThenDrop<V>(m: map<int, V>, k: int, v: V)
    requires k !in m
    ensures m[k := v] - {k} == m
  {
  }

  /** After `clear`, no key is contained, whatever was stored before. */
  lemma ContainsAfterClear<V>(l: SkipList<V>, k: int)
    requires Valid(l)
    ensures !Contains(Clear(l), k)
    ensures Count(Clear(l)) == 0
  {
  }
}
