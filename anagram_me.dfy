/** The anagram finder: turning a name into its letter multiset, filtering
    the dictionary against it, the recursive search, loading the dictionary
    from its lines, and ranking the anagrams found. */
module Anagrams {
  import opened Text
  import opened Letters
  import opened FrequencyMaps
  import opened FrequencyContainers
  import opened StableSort
  import opened Dictionary
  import opened AnagramSearch

  /** The letters generateFrequencyMap counts: the lowercased name without its spaces. */
  function PhraseLetters(name: string): string
    decreases |name|
  {
    if name == [] then []
    else
      var c := ToLower(name[|name| - 1]);
      PhraseLetters(name[..|name| - 1]) + (if c != ' ' then [c] else [])
  }

  /** The phrase letters are the lowercased name with every space taken out:
      no space remains and every other character keeps its count. */
  lemma {:induction false} PhraseLettersSpec(name: string)
    ensures multiset(PhraseLetters(name)) == multiset(LowerCase(name))[' ' := 0]
    decreases |name|
  {
    if name != [] {
      var init := name[..|name| - 1];
      PhraseLettersSpec(init);
      PhraseLettersLast(name);
      LowerCaseLast(name);
      DropSpaceStep(multiset(PhraseLetters(init)), multiset(LowerCase(init)), ToLower(name[|name| - 1]));
    }
  }

  lemma LowerCaseLast(name: string)
    requires name != []
    ensures multiset(LowerCase(name)) ==
      multiset(LowerCase(name[..|name| - 1])) + multiset{ToLower(name[|name| - 1])}
  {
    assert LowerCase(name) == LowerCase(name[..|name| - 1]) + [ToLower(name[|name| - 1])];
  }

  /** Adding c to both sides keeps one the other without its spaces. */
  lemma DropSpaceStep(a: multiset<char>, b: multiset<char>, c: char)
    requires a == b[' ' := 0]
    ensures a + (if c != ' ' then multiset{c} else multiset{}) == (b + multiset{c})[' ' := 0]
  {
  }

  /** The last character of the name adds its lowercase form, unless that is a space. */
  lemma PhraseLettersLast(name: string)
    requires name != []
    ensures var c := ToLower(name[|name| - 1]);
      multiset(PhraseLetters(name)) ==
        multiset(PhraseLetters(name[..|name| - 1])) + (if c != ' ' then multiset{c} else multiset{})
  {
    var c := ToLower(name[|name| - 1]);
    var tail := if c != ' ' then [c] else [];
    assert multiset(tail) == if c != ' ' then multiset{c} else multiset{};
  }

  /** One more character of the name, as the loop of generateFrequencyMap takes it. */
  lemma PhraseLettersStep(name: string, i: nat)
    requires i < |name|
    ensures var c := ToLower(name[i]);
      multiset(PhraseLetters(name[..i + 1])) ==
        multiset(PhraseLetters(name[..i])) + (if c != ' ' then multiset{c} else multiset{})
  {
    PhraseLettersLast(name[..i + 1]);
    assert name[..i + 1][..i] == name[..i];
  }

  /** There are as many phrase letters as the name has non-space characters. */
  lemma {:induction false} PhraseLettersLength(name: string)
    ensures |PhraseLetters(name)| == |name| - multiset(name)[' ']
    decreases |name|
  {
    if name != [] {
      var init := name[..|name| - 1];
      var c := name[|name| - 1];
      PhraseLettersLength(init);
      assert name == init + [c];
      assert multiset(name) == multiset(init) + multiset{c};
      assert ToLower(c) == ' ' <==> c == ' ';
    }
  }

  /** generateFrequencyMap: a new table counting every non-space character of
      the lowercased name. */
  method GenerateFrequencyMap(name: string) returns (frequencyMap: FrequencyMap)
    ensures fresh(frequencyMap) && frequencyMap.Valid()
    ensures frequencyMap.Letters() == multiset(PhraseLetters(name))
    ensures frequencyMap.Size() == |PhraseLetters(name)|
  {
    frequencyMap := new FrequencyMap();
    var lower := LowerCase(name);
    for i := 0 to |lower|
      invariant frequencyMap.Valid()
      invariant frequencyMap.Letters() == SpacelessBag(lower, i)
    {
      if lower[i] != ' ' {
        frequencyMap.Increment(lower[i]);
      }
    }
    SpacelessBagPhrase(name, |name|);
    assert name[..|name|] == name;
  }

  /** The non-space characters among the first j of s, as the loop of
      generateFrequencyMap counts them. */
  ghost function SpacelessBag(s: string, j: nat): multiset<char>
    requires j <= |s|
  {
    if j == 0 then multiset{}
    else SpacelessBag(s, j - 1) + (if s[j - 1] != ' ' then multiset{s[j - 1]} else multiset{})
  }

  lemma {:induction false} SpacelessBagPhrase(name: string, j: nat)
    requires j <= |name|
    ensures SpacelessBag(LowerCase(name), j) == multiset(PhraseLetters(name[..j]))
  {
    if j > 0 {
      LowerCaseAt(name, j - 1);
      SpacelessBagPhrase(name, j - 1);
      PhraseLettersStep(name, j - 1);
    }
  }

  /** Taking one more letter c out of what is left of M after A. */
  lemma TakeLetter(M: multiset<char>, A: multiset<char>, c: char)
    requires A <= M
    ensures c in M - A ==> A + multiset{c} <= M && (M - A) - multiset{c} == M - (A + multiset{c})
    ensures c !in M - A ==> !(A + multiset{c} <= M)
  {
  }

  /** The letters of the first j characters of w, counted one character at a
      time as the inner loop of filterDict takes them. */
  function PrefixBag(w: string, j: nat): multiset<char>
    requires j <= |w|
  {
    if j == 0 then multiset{} else PrefixBag(w, j - 1) + multiset{w[j - 1]}
  }

  lemma {:induction false} PrefixBagIsMultiset(w: string, j: nat)
    requires j <= |w|
    ensures PrefixBag(w, j) == multiset(w[..j])
  {
    if j > 0 {
      PrefixBagIsMultiset(w, j - 1);
      assert w[..j] == w[..j - 1] + [w[j - 1]];
    }
  }

  /** All characters of w counted: the letters of w. */
  lemma PrefixBagWhole(w: string)
    ensures PrefixBag(w, |w|) == multiset(w)
  {
    PrefixBagIsMultiset(w, |w|);
    assert w[..|w|] == w;
  }

  /** A prefix holds no more of any letter than the whole word. */
  lemma {:induction false} PrefixBagMono(w: string, j: nat)
    requires j <= |w|
    ensures PrefixBag(w, j) <= PrefixBag(w, |w|)
    decreases |w| - j
  {
    if j < |w| {
      PrefixBagMono(w, j + 1);
    }
  }

  /** The test filterDict applies to one word: on a fresh copy of the table,
      check the length against the size, then take the word's characters out
      of the copy. The result is whether the word fits the letters; the table
      passed in is not changed. */
  method WordFits(w: string, frequencyMap: FrequencyMap) returns (fits: bool)
    requires frequencyMap.Valid()
    ensures fits == Fits(w, frequencyMap.Letters())
  {
    var clonedFreqs := frequencyMap.Copy();
    fits := false;
    if |w| <= clonedFreqs.Size() {
      var didFail := TakeOut(clonedFreqs, w);
      PrefixBagWhole(w);
      fits := !didFail;
    }
  }

  /** The inner loop of filterDict: take the characters of w out of the copy
      one by one, and fail at the first one it does not hold. It fails
      exactly when w does not fit the letters the copy started with; when
      it does not fail, the copy is left holding the rest. PrefixBag(w, |w|)
      is the multiset of the characters of w (PrefixBagWhole). */
  method TakeOut(clonedFreqs: FrequencyMap, w: string) returns (didFail: bool)
    requires clonedFreqs.Valid()
    modifies clonedFreqs
    ensures clonedFreqs.Valid()
    ensures didFail <==> !(PrefixBag(w, |w|) <= old(clonedFreqs.Letters()))
    ensures !didFail ==> clonedFreqs.Letters() == old(clonedFreqs.Letters()) - PrefixBag(w, |w|)
  {
    ghost var M := clonedFreqs.Letters();
    didFail := false;
    var j := 0;
    while j < |w|
      invariant 0 <= j <= |w|
      invariant clonedFreqs.Valid()
      invariant PrefixBag(w, j) <= M && clonedFreqs.Letters() == M - PrefixBag(w, j)
    {
      TakeLetter(M, PrefixBag(w, j), w[j]);
      if clonedFreqs.Contains(w[j]) {
        clonedFreqs.Decrement(w[j]);
      } else {
        PrefixBagMono(w, j + 1);
        didFail := true;
        return;
      }
      j := j + 1;
    }
  }

  /** filterDict: the entries whose words fit the letters of frequencyMap, in
      dictionary order; the table passed in is not changed. */
  method FilterDict(dict: seq<FrequencyContainer>, frequencyMap: FrequencyMap) returns (filteredDict: seq<FrequencyContainer>)
    requires frequencyMap.Valid()
    ensures filteredDict == Filtered(dict, frequencyMap.Letters())
  {
    ghost var M := frequencyMap.Letters();
    filteredDict := [];
    for k := 0 to |dict|
      invariant filteredDict == Filtered(dict[..k], M)
    {
      var container := dict[k];
      var fits := WordFits(container.word, frequencyMap);
      FilteredSnoc(dict[..k], container, M);
      assert dict[..k + 1] == dict[..k] + [container];
      if fits {
        filteredDict := filteredDict + [container];
      }
    }
    assert dict[..|dict|] == dict;
  }

  /** When all of w fits M, the next character of w is still among the
      letters left after its prefix. */
  lemma NextLetterLeft(w: string, j: nat, M: multiset<char>)
    requires j < |w| && PrefixBag(w, |w|) <= M
    ensures w[j] in M - PrefixBag(w, j)
  {
    PrefixBagMono(w, j + 1);
    assert PrefixBag(w, j + 1) <= M;
    assert PrefixBag(w, j)[w[j]] + 1 <= M[w[j]];
  }

  /** The decrement loop before the recursion: take every character of w out
      of the copy. Every decrement finds its key, because w fits the letters. */
  method TakeWord(newFrequencyMap: FrequencyMap, w: string)
    requires newFrequencyMap.Valid() && multiset(w) <= newFrequencyMap.Letters()
    modifies newFrequencyMap
    ensures newFrequencyMap.Valid()
    ensures newFrequencyMap.Letters() == old(newFrequencyMap.Letters()) - multiset(w)
  {
    ghost var M := newFrequencyMap.Letters();
    PrefixBagWhole(w);
    for j := 0 to |w|
      invariant newFrequencyMap.Valid()
      invariant PrefixBag(w, j) <= M && newFrequencyMap.Letters() == M - PrefixBag(w, j)
    {
      NextLetterLeft(w, j, M);
      TakeLetter(M, PrefixBag(w, j), w[j]);
      assert newFrequencyMap.Contains(w[j]);
      newFrequencyMap.Decrement(w[j]);
    }
  }

  /** anagramHelper: appends to anagrams every anagram the search emits from
      the window dict[minimumIndex..] with the letters of frequencyMap, each
      after usedWords. The table passed in is not changed. */
  method AnagramHelper(dict: seq<FrequencyContainer>, frequencyMap: FrequencyMap, usedWords: seq<FrequencyContainer>,
                       anagrams: seq<seq<FrequencyContainer>>, minimumIndex: nat)
    returns (result: seq<seq<FrequencyContainer>>)
    requires frequencyMap.Valid() && minimumIndex <= |dict| && NonEmptyWords(dict)
    ensures result == anagrams + Search(dict, frequencyMap.Letters(), usedWords, minimumIndex)
    decreases |frequencyMap.Letters()|, 1
  {
    ghost var M := frequencyMap.Letters();
    var filteredDict := FilterDict(dict[minimumIndex..], frequencyMap);
    ghost var f := filteredDict;
    FilteredWindow(dict, minimumIndex, M);
    var index := 0;
    result := anagrams;
    var i := 0;
    while i < |filteredDict|
      invariant 0 <= index <= i <= |filteredDict|
      invariant AllFit(f, M) && NonEmptyWords(f)
      invariant result + Loop(f, M, usedWords, i, index) == anagrams + Loop(f, M, usedWords, 0, 0)
    {
      var container := filteredDict[i];
      assert container in f;
      if |container.word| > frequencyMap.Size() {
        // Every word of the filtered list fits the letters, so the source's
        // skip of a longer word never happens.
        assert false;
      }
      LoopTakeAfter(f, M, usedWords, i, index, result);
      result := Turn(filteredDict, frequencyMap, usedWords, result, i, index);
      index := index + 1;
      i := i + 1;
    }
  }

  /** One turn of the loop of anagramHelper, for a word that is not longer
      than the letters left: a word as long as them completes an anagram;
      a shorter one is taken out of a copy of the table, and the search goes
      on from index of the filtered list with what is left. */
  method Turn(filteredDict: seq<FrequencyContainer>, frequencyMap: FrequencyMap, usedWords: seq<FrequencyContainer>,
              anagrams: seq<seq<FrequencyContainer>>, i: nat, index: nat)
    returns (result: seq<seq<FrequencyContainer>>)
    requires frequencyMap.Valid() && i < |filteredDict| && index <= i
    requires AllFit(filteredDict, frequencyMap.Letters()) && NonEmptyWords(filteredDict)
    ensures result == anagrams + Step(filteredDict, frequencyMap.Letters(), usedWords, i, index)
    decreases |frequencyMap.Letters()|, 0
  {
    var container := filteredDict[i];
    assert container in filteredDict;
    var newUsedWords := usedWords + [container];
    if |container.word| == frequencyMap.Size() {
      result := anagrams + [newUsedWords];
    } else {
      var newFrequencyMap := frequencyMap.Copy();
      TakeWord(newFrequencyMap, container.word);
      SubtractCard(frequencyMap.Letters(), multiset(container.word));
      result := AnagramHelper(filteredDict, newFrequencyMap, newUsedWords, anagrams, index);
    }
  }

  /** Every word has at least WordLengthThreshold characters. */
  ghost predicate LongWords(d: seq<FrequencyContainer>) {
    forall e :: e in d ==> |e.word| >= WordLengthThreshold
  }

  /** Loading keeps the dictionary's words long, before and after the sort. */
  lemma LoadedLongWords(start: seq<FrequencyContainer>, lines: seq<string>)
    ensures LongWords(start) ==> LongWords(start + Collect(lines).entries)
    ensures LongWords(start) ==> LongWords(SortDesc(start + Collect(lines).entries, Score))
  {
    CollectBounds(lines);
    SortDescMembers(start + Collect(lines).entries, Score);
  }

  /** The anagram finder over a loaded dictionary. */
  class AnagramMe {
    var dict: seq<FrequencyContainer>

    /** Every dictionary word has at least WordLengthThreshold characters. */
    ghost predicate Valid()
      reads this
    {
      LongWords(dict)
    }

    /** An empty dictionary, before loadDict. */
    constructor ()
      ensures Valid() && dict == []
    {
      dict := [];
    }

    /** loadDict over the lines of the file: at most MaxLines lines are read,
        each by the line rule; then the dictionary is sorted by score, largest
        first and stable. A malformed number stops the loading (the exception
        of Integer.parseInt) before the sort, and the result is false. */
    method LoadDict(lines: seq<string>) returns (complete: bool)
      modifies this
      ensures complete == Collect(ReadLines(lines)).complete
      ensures complete ==> dict == SortDesc(old(dict) + Collect(ReadLines(lines)).entries, Score)
      ensures !complete ==> dict == old(dict) + Collect(ReadLines(lines)).entries
      ensures old(Valid()) ==> Valid()
    {
      ghost var R := ReadLines(lines);
      ghost var start := dict;
      var numberCollected := 0;
      while numberCollected < |lines| && numberCollected < MaxLines
        invariant numberCollected <= |R|
        invariant Collect(R[..numberCollected]).complete
        invariant dict == start + Collect(R[..numberCollected]).entries
      {
        var nextLine := lines[numberCollected];
        assert nextLine == R[numberCollected];
        CollectNext(R, numberCollected);
        var outcome := ReadLine(nextLine);
        if outcome.Malformed? {
          CollectStops(R, numberCollected + 1);
          LoadedLongWords(start, R);
          return false;
        }
        if outcome.Keep? {
          dict := dict + [outcome.entry];
        }
        numberCollected := numberCollected + 1;
      }
      assert R[..numberCollected] == R;
      LoadedLongWords(start, R);
      dict := SortDesc(dict, Score);
      complete := true;
    }

    /** findAnagrams: every anagram of the name the search emits from the
        whole dictionary, in the order found. */
    method FindAnagrams(name: string) returns (anagrams: seq<seq<FrequencyContainer>>)
      requires Valid()
      ensures anagrams == Search(dict, multiset(PhraseLetters(name)), [], 0)
    {
      var frequencyMap := GenerateFrequencyMap(name);
      anagrams := AnagramHelper(dict, frequencyMap, [], [], 0);
    }
  }

  /** Every anagram found for a name spells it: its letters, concatenated,
      are the lowercased name without spaces, and its word lengths add up to
      the number of non-space characters of the name. */
  lemma FoundAnagramSpellsName(D: seq<FrequencyContainer>, name: string, a: seq<FrequencyContainer>)
    requires NonEmptyWords(D) && a in Search(D, multiset(PhraseLetters(name)), [], 0)
    ensures multiset(Concat(a)) == multiset(PhraseLetters(name))
    ensures LengthSum(a) == |name| - multiset(name)[' ']
  {
    SearchSound(D, multiset(PhraseLetters(name)), [], 0);
    assert a[0..] == a;
    SearchLengths(D, multiset(PhraseLetters(name)), a);
    PhraseLettersLength(name);
  }

  /** The ranking in main: anagrams by non-increasing summed score. */
  function Rank(anagrams: seq<seq<FrequencyContainer>>): (ranked: seq<seq<FrequencyContainer>>)
    ensures SortedDesc(ranked, FrequencySum) && multiset(ranked) == multiset(anagrams)
  {
    SortDescSorted(anagrams, FrequencySum);
    SortDescPermutes(anagrams, FrequencySum);
    SortDesc(anagrams, FrequencySum)
  }

  /** Ties in the ranking keep the order in which the anagrams were found. */
  lemma RankStable(anagrams: seq<seq<FrequencyContainer>>, k: int)
    ensures WithKey(Rank(anagrams), FrequencySum, k) == WithKey(anagrams, FrequencySum, k)
  {
    SortDescStable(anagrams, FrequencySum, k);
  }
}
