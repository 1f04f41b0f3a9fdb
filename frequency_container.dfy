/** A word paired with an integer score, and the score of a list of them. */
module FrequencyContainers {
  import opened Options
  import opened Decimal

  datatype FrequencyContainer = FrequencyContainer(frequency: int, word: string)

  /** The key the dictionary and the scraper output are ordered by. */
  function Score(c: FrequencyContainer): int {
    c.frequency
  }

  /** Sum of the frequencies of a list, accumulated front to back. */
  function FrequencySum(xs: seq<FrequencyContainer>): int
    decreases |xs|
  {
    if xs == [] then 0 else FrequencySum(xs[..|xs| - 1]) + xs[|xs| - 1].frequency
  }

  /** getFrequencySum: the loop that adds up the frequencies (0 for an empty list). */
  method GetFrequencySum(containers: seq<FrequencyContainer>) returns (sum: int)
    ensures sum == FrequencySum(containers)
  {
    sum := 0;
    for i := 0 to |containers|
      invariant sum == FrequencySum(containers[..i])
    {
      assert containers[..i + 1][..i] == containers[..i];
      sum := sum + containers[i].frequency;
    }
    assert containers[..|containers|] == containers;
  }

  /** The sum of a concatenation is the sum of the parts. */
  lemma {:induction false} FrequencySumAppend(a: seq<FrequencyContainer>, b: seq<FrequencyContainer>)
    ensures FrequencySum(a + b) == FrequencySum(a) + FrequencySum(b)
    decreases |b|
  {
    if b == [] {
      assert a + b == a;
    } else {
      assert (a + b)[..|a + b| - 1] == a + b[..|b| - 1];
      FrequencySumAppend(a, b[..|b| - 1]);
    }
  }

  /** Reordering a list does not change its sum. */
  lemma {:induction false} FrequencySumPermutation(a: seq<FrequencyContainer>, b: seq<FrequencyContainer>)
    requires multiset(a) == multiset(b)
    ensures FrequencySum(a) == FrequencySum(b)
    decreases |a|
  {
    if a == [] {
      assert |b| == |multiset(b)| == 0;
    } else {
      var init, x := a[..|a| - 1], a[|a| - 1];
      assert a == init + [x];
      assert multiset(init) == multiset(a) - multiset{x};
      assert x in multiset(b);
      var i :| 0 <= i < |b| && b[i] == x;
      var rest := RemoveAt(b, i);
      FrequencySumPermutation(init, rest);
      FrequencySumAppend(init, [x]);
      SumOfOne(x);
    }
  }

  /** b without its entry at i: the multiset loses that entry and the sum its frequency. */
  lemma RemoveAt(b: seq<FrequencyContainer>, i: nat) returns (rest: seq<FrequencyContainer>)
    requires i < |b|
    ensures multiset(rest) == multiset(b) - multiset{b[i]}
    ensures FrequencySum(b) == FrequencySum(rest) + b[i].frequency
  {
    var x := b[i];
    rest := b[..i] + b[i + 1..];
    assert b == b[..i] + [x] + b[i + 1..];
    assert multiset(b) == multiset(b[..i]) + multiset{x} + multiset(b[i + 1..]);
    FrequencySumAppend(b[..i] + [x], b[i + 1..]);
    FrequencySumAppend(b[..i], [x]);
    FrequencySumAppend(b[..i], b[i + 1..]);
    SumOfOne(x);
  }

  lemma SumOfOne(x: FrequencyContainer)
    ensures FrequencySum([x]) == x.frequency
  {
    assert [x][..0] == [];
  }

  /** toString: the word, a colon, then the frequency in decimal; the part
      after the colon reads back as the frequency. */
  function ToString(c: FrequencyContainer): (s: string)
    ensures |s| > |c.word| && s[..|c.word|] == c.word && s[|c.word|] == ':'
    ensures IntMin <= c.frequency <= IntMax ==> ParseInt(s[|c.word| + 1..]) == Some(c.frequency)
  {
    var s := c.word + ":" + IntToString(c.frequency);
    assert s[|c.word| + 1..] == IntToString(c.frequency);
    ParseIntToString(c.frequency);
    s
  }
}
