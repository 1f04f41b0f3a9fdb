/** filterDict as the Java code behaves: copy() hands each word the SAME
    backing map (only the size field is copied), so the letters one word
    takes out are gone for every word after it. The rest of the model uses
    the value copy that the comments of filterDict intend; this module keeps
    the shared behaviour to exhibit the difference. */
module AliasedCopy {
  import opened Letters
  import opened FrequencyContainers
  import opened AnagramSearch

  /** The inner loop of filterDict on the shared map: decrement each
      character in turn, stop at the first one the map lacks. Returns whether
      it failed and the map left behind, decrements before the miss included. */
  function TakeShared(m: map<char, int>, w: string): (bool, map<char, int>)
    decreases |w|
  {
    if w == [] then (false, m)
    else if w[0] in m then TakeShared(Decremented(m, w[0]), w[1..])
    else (true, m)
  }

  /** filterDict with the shared map: the words kept and the map left behind.
      size is the copy's size field, which every copy reads afresh from the
      untouched original. */
  function SharedFilter(d: seq<FrequencyContainer>, m: map<char, int>, size: int): (seq<FrequencyContainer>, map<char, int>)
    decreases |d|
  {
    if d == [] then ([], m)
    else
      var step := if |d[0].word| <= size then TakeShared(m, d[0].word) else (true, m);
      var rest := SharedFilter(d[1..], step.1, size);
      ((if step.0 then [] else [d[0]]) + rest.0, rest.1)
  }

  /** For the phrase "ab" and the dictionary ["ab", "ba"], the shared map
      loses "ba": "ab" used up both letters. The value copy keeps both words. */
  lemma SharedFilterLosesAnagram()
    ensures var dict := [FrequencyContainer(1, "ab"), FrequencyContainer(1, "ba")];
      && SharedFilter(dict, map['a' := 1, 'b' := 1], 2).0 == [dict[0]]
      && Filtered(dict, multiset("ab")) == dict
  {
    var dict := [FrequencyContainer(1, "ab"), FrequencyContainer(1, "ba")];
    var m := map['a' := 1, 'b' := 1];
    var empty: map<char, int> := map[];
    assert Decremented(m, 'a') == map['b' := 1];
    assert Decremented(map['b' := 1], 'b') == empty;
    assert "ab"[1..] == "b" && "b"[1..] == "";
    assert TakeShared(m, "ab") == (false, empty);
    assert "ba"[0] == 'b';
    assert TakeShared(empty, "ba") == (true, empty);
    var tail := dict[1..];
    assert tail == [dict[1]] && tail[1..] == [];
    assert tail[0].word == "ba";
    assert SharedFilter(tail[1..], empty, 2) == ([], empty);
    assert |tail[0].word| <= 2;
    var step := TakeShared(empty, tail[0].word);
    assert step == (true, empty);
    assert SharedFilter(tail, empty, 2).0 == [] + SharedFilter(tail[1..], empty, 2).0;
    assert SharedFilter(tail, empty, 2) == ([], empty);
    assert multiset("ab") == multiset("ba");
  }
}
