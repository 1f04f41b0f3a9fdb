/** The letter multiset of the search: a table from character to count with a
    cached size that is the total number of letters (duplicates included),
    not the number of distinct keys. */
module FrequencyMaps {
  import opened Letters

  class FrequencyMap {
    var backingMap: map<char, int>
    var size: int

    /** The cached size equals the sum of the stored counts. */
    ghost predicate Consistent()
      reads this
    {
      size == Total(backingMap)
    }

    /** The invariant increment and decrement keep: consistent, and no entry
        at zero or below (an entry that reaches zero is removed). */
    ghost predicate Valid()
      reads this
    {
      Consistent() && Positive(backingMap)
    }

    /** The letters the table stands for. */
    ghost function Letters(): multiset<char>
      reads this
    {
      Bag(backingMap)
    }

    /** An empty table. */
    constructor ()
      ensures Valid() && backingMap == map[] && size == 0
      ensures Letters() == multiset{}
    {
      backingMap := map[];
      size := 0;
    }

    /** A table made of the given map and size, as copy() builds it. */
    constructor Of(backingMap: map<char, int>, size: int)
      ensures this.backingMap == backingMap && this.size == size
    {
      this.backingMap := backingMap;
      this.size := size;
    }

    /** Sets the count of c to n; the size moves by n minus the previous count
        (0 when c was absent). Positivity survives only for a positive n. */
    method Put(c: char, n: int)
      modifies this
      ensures backingMap == old(backingMap)[c := n]
      ensures size == old(size) + n - Get(old(backingMap), c)
      ensures old(Consistent()) ==> Consistent()
      ensures old(Valid()) && n > 0 ==> Valid()
    {
      var previous := 0;
      if c in backingMap {
        previous := backingMap[c];
      }
      var difference := n - previous;
      size := size + difference;
      backingMap := backingMap[c := n];
      TotalPut(old(backingMap), c, n);
    }

    /** Raises the count of c by one (a new key starts from 0) and the size by one. */
    method Increment(c: char)
      modifies this
      ensures backingMap == Incremented(old(backingMap), c)
      ensures size == old(size) + 1
      ensures old(Consistent()) ==> Consistent()
      ensures old(Valid()) ==> Valid() && Letters() == old(Letters()) + multiset{c}
    {
      if c !in backingMap {
        backingMap := backingMap[c := 0];
      }
      backingMap := backingMap[c := backingMap[c] + 1];
      size := size + 1;
      assert backingMap == Incremented(old(backingMap), c);
      IncrementedTotal(old(backingMap), c);
      if old(Valid()) {
        IncrementedBag(old(backingMap), c);
      }
    }

    /** Lowers the count of c by one, removing the entry when it reaches zero,
        and lowers the size by one. An absent c is a caller error (the source
        fails on it on purpose). */
    method Decrement(c: char)
      requires c in backingMap
      modifies this
      ensures backingMap == Decremented(old(backingMap), c)
      ensures size == old(size) - 1
      ensures old(Valid()) ==> Valid() && Letters() == old(Letters()) - multiset{c}
    {
      ghost var m := backingMap;
      var count := backingMap[c];
      count := count - 1;
      if count <= 0 {
        backingMap := backingMap - {c};
      } else {
        backingMap := backingMap[c := count];
      }
      size := size - 1;
      assert backingMap == Decremented(m, c);
      if Positive(m) {
        DecrementedTotal(m, c);
        DecrementedBag(m, c);
      }
    }

    /** A new table with the same counts and size. Dafny maps are values, so
        the new table is independent of this one. */
    method Copy() returns (r: FrequencyMap)
      ensures fresh(r) && r.backingMap == backingMap && r.size == size
      ensures Valid() ==> r.Valid() && r.Letters() == Letters()
    {
      r := new FrequencyMap.Of(backingMap, size);
    }

    /** Whether c has an entry; on a valid table, whether c is among the letters. */
    function Contains(c: char): (b: bool)
      reads this
      ensures Valid() ==> (b <==> c in Letters())
    {
      BagCount(backingMap, c);
      c in backingMap
    }

    /** The cached size; on a valid table, the number of letters counted with repetition. */
    function Size(): (n: int)
      reads this
      ensures Valid() ==> n == |Letters()|
    {
      BagSize(backingMap);
      size
    }
  }
}
