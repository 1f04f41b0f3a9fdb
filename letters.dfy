/** Value-level view of a letter-count table (a map from character to count):
    its total, the multiset it stands for, and the one-step updates that
    increment and decrement perform on it. */
module Letters {

  /** The count stored for c, or 0 when c has no entry. */
  function Get(m: map<char, int>, c: char): int {
    if c in m then m[c] else 0
  }

  /** No entry holds zero or a negative count. */
  ghost predicate Positive(m: map<char, int>) {
    forall c :: c in m ==> m[c] > 0
  }

  /** Some key of a non-empty table; Total and Bag both take theirs apart at it. */
  ghost function Pick(m: map<char, int>): (c: char)
    requires m != map[]
    ensures c in m
  {
    var c :| c in m.Keys; c
  }

  lemma RemoveKeyCard(m: map<char, int>, c: char)
    requires c in m
    ensures |m - {c}| == |m| - 1
  {
    assert (m - {c}).Keys == m.Keys - {c};
  }

  /** Sum of all stored counts. */
  ghost function Total(m: map<char, int>): int
    decreases |m|
  {
    if m == map[] then 0
    else
      var c := Pick(m);
      RemoveKeyCard(m, c);
      m[c] + Total(m - {c})
  }

  /** n copies of c (none when n is not positive). */
  function Rep(c: char, n: int): (r: multiset<char>)
    ensures forall x :: r[x] == if x == c && n > 0 then n else 0
    ensures |r| == if n > 0 then n else 0
    decreases if n > 0 then n else 0
  {
    if n <= 0 then multiset{} else Rep(c, n - 1) + multiset{c}
  }

  /** The multiset of letters a table stands for: each character as many
      times as its positive count says. */
  ghost function Bag(m: map<char, int>): multiset<char>
    decreases |m|
  {
    if m == map[] then multiset{}
    else
      var c := Pick(m);
      RemoveKeyCard(m, c);
      Bag(m - {c}) + Rep(c, m[c])
  }

  /** Each character occurs in the multiset as often as its positive count says. */
  lemma {:induction false} BagCount(m: map<char, int>, x: char)
    ensures Bag(m)[x] == if x in m && m[x] > 0 then m[x] else 0
    decreases |m|
  {
    if m != map[] {
      var c := Pick(m);
      RemoveKeyCard(m, c);
      BagCount(m - {c}, x);
    }
  }

  /** The total does not depend on which key Total takes apart first. */
  lemma {:induction false} TotalRemove(m: map<char, int>, c: char)
    requires c in m
    ensures Total(m) == m[c] + Total(m - {c})
    decreases |m|
  {
    var p := Pick(m);
    if p != c {
      RemoveKeyCard(m, p);
      RemoveKeyCard(m, c);
      TotalRemove(m - {p}, c);
      TotalRemove(m - {c}, p);
      assert m - {p} - {c} == m - {c} - {p};
    }
  }

  /** Writing n at c changes the total by n minus the previous count. */
  lemma TotalPut(m: map<char, int>, c: char, n: int)
    ensures Total(m[c := n]) == Total(m) - Get(m, c) + n
  {
    TotalRemove(m[c := n], c);
    assert m[c := n] - {c} == m - {c};
    if c in m {
      TotalRemove(m, c);
    } else {
      assert m - {c} == m;
    }
  }

  /** For a table with positive counts, the multiset has as many letters as the total says. */
  lemma {:induction false} BagSize(m: map<char, int>)
    ensures Positive(m) ==> |Bag(m)| == Total(m)
    decreases |m|
  {
    if m != map[] && Positive(m) {
      var c := Pick(m);
      RemoveKeyCard(m, c);
      BagSize(m - {c});
    }
  }

  /** The table after increment(c): a missing key starts at 0, then gains 1. */
  function Incremented(m: map<char, int>, c: char): map<char, int> {
    m[c := Get(m, c) + 1]
  }

  /** The table after decrement(c): the count drops by 1, and the entry goes
      when the new count is zero or less. */
  function Decremented(m: map<char, int>, c: char): map<char, int>
    requires c in m
  {
    if m[c] - 1 <= 0 then m - {c} else m[c := m[c] - 1]
  }

  lemma IncrementedTotal(m: map<char, int>, c: char)
    ensures Total(Incremented(m, c)) == Total(m) + 1
  {
    TotalPut(m, c, Get(m, c) + 1);
  }

  /** increment(c) adds exactly one c to the multiset and keeps every count positive. */
  lemma IncrementedBag(m: map<char, int>, c: char)
    requires Positive(m)
    ensures Positive(Incremented(m, c))
    ensures Bag(Incremented(m, c)) == Bag(m) + multiset{c}
  {
    forall x ensures Bag(Incremented(m, c))[x] == (Bag(m) + multiset{c})[x] {
      IncrementedAt(m, c, x);
    }
  }

  lemma IncrementedAt(m: map<char, int>, c: char, x: char)
    requires Positive(m)
    ensures Bag(Incremented(m, c))[x] == (Bag(m) + multiset{c})[x]
  {
    BagCount(m, x);
    BagCount(Incremented(m, c), x);
  }

  /** decrement(c) on a positive table lowers the total by one. */
  lemma DecrementedTotal(m: map<char, int>, c: char)
    requires c in m && Positive(m)
    ensures Total(Decremented(m, c)) == Total(m) - 1
  {
    if m[c] - 1 <= 0 {
      TotalRemove(m, c);
    } else {
      TotalPut(m, c, m[c] - 1);
    }
  }

  /** decrement(c) removes exactly one c from the multiset and keeps every count positive. */
  lemma DecrementedBag(m: map<char, int>, c: char)
    requires c in m && Positive(m)
    ensures Positive(Decremented(m, c))
    ensures Bag(Decremented(m, c)) == Bag(m) - multiset{c}
  {
    forall x ensures Bag(Decremented(m, c))[x] == (Bag(m) - multiset{c})[x] {
      DecrementedAt(m, c, x);
    }
  }

  lemma DecrementedAt(m: map<char, int>, c: char, x: char)
    requires c in m && Positive(m)
    ensures Bag(Decremented(m, c))[x] == (Bag(m) - multiset{c})[x]
  {
    BagCount(m, x);
    BagCount(Decremented(m, c), x);
  }

  /** decrement(c) undoes increment(c) on a table whose counts are positive. */
  lemma DecrementUndoesIncrement(m: map<char, int>, c: char)
    requires Positive(m)
    ensures Decremented(Incremented(m, c), c) == m
  {
    if c in m {
      assert Incremented(m, c)[c] - 1 == m[c];
      assert m[c := m[c]] == m;
    } else {
      assert Incremented(m, c) - {c} == m;
    }
  }
}
