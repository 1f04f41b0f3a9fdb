/** What the two scrapers do with the text they fetch: normalise a word and
    count it (addWordIfCompatible), write the counts out ordered by frequency
    (saveFrequencyMap), and, for Urban Dictionary, queue every definition
    link at most once (the link loop of parsePage). Fetching pages and
    writing files are not modelled: words, links and lines are sequences. */
module Scrapers {
  import opened Text
  import opened Decimal
  import opened FrequencyContainers
  import opened StableSort
  import opened Dictionary

  // ---------------------------------------------------------------------
  // Normalisation and acceptance of a word

  /** The characters replaceAll("[.,\"!?\n()*]", "") deletes. */
  predicate Deleted(c: char) {
    c == '.' || c == ',' || c == '"' || c == '!' || c == '?' || c == '\n' || c == '(' || c == ')' || c == '*'
  }

  /** s with the deleted characters taken out, the others kept in order. */
  function StripDeleted(s: string): string
    decreases |s|
  {
    if s == [] then [] else (if Deleted(s[0]) then [] else [s[0]]) + StripDeleted(s[1..])
  }

  /** No deleted character survives, and every other character keeps its count. */
  lemma {:induction false} StripDeletedCounts(s: string)
    ensures forall c :: Deleted(c) ==> c !in StripDeleted(s)
    ensures forall c :: !Deleted(c) ==> multiset(StripDeleted(s))[c] == multiset(s)[c]
    decreases |s|
  {
    if s != [] {
      StripDeletedCounts(s[1..]);
      assert s == [s[0]] + s[1..];
    }
  }

  /** word.toLowerCase().replaceAll("[.,\"!?\n()*]", "") */
  function Normalize(word: string): string {
    StripDeleted(LowerCase(word))
  }

  /** String.matches("[a-z]+"): one or more characters, all of them a to z. */
  predicate IsLowerWord(s: string) {
    |s| >= 1 && forall i :: 0 <= i < |s| ==> 'a' <= s[i] <= 'z'
  }

  predicate IsLetter(c: char) {
    'a' <= c <= 'z' || 'A' <= c <= 'Z'
  }

  /** A word is counted exactly when it holds at least one ASCII letter and
      nothing but ASCII letters and deleted characters. */
  lemma AcceptedWords(word: string)
    ensures IsLowerWord(Normalize(word)) <==>
      (forall i :: 0 <= i < |word| ==> IsLetter(word[i]) || Deleted(word[i])) &&
      (exists i :: 0 <= i < |word| && IsLetter(word[i]))
  {
    NormalizedLetters(word);
    if exists i :: 0 <= i < |word| && IsLetter(word[i]) {
      var i :| 0 <= i < |word| && IsLetter(word[i]);
      assert !Deleted(word[i]);
    }
    if (forall i :: 0 <= i < |word| ==> IsLetter(word[i]) || Deleted(word[i])) && Normalize(word) != [] {
      var i :| 0 <= i < |word| && !Deleted(word[i]);
      assert IsLetter(word[i]);
    }
  }

  /** Normalisation splits off the first character: deleted, or lower-cased. */
  lemma NormalizeCons(w: string)
    requires w != []
    ensures Normalize(w) == (if Deleted(w[0]) then [] else [ToLower(w[0])]) + Normalize(w[1..])
  {
    assert LowerCase(w)[1..] == LowerCase(w[1..]);
  }

  /** Every character is a to z. */
  predicate AllLower(s: string) {
    forall i :: 0 <= i < |s| ==> 'a' <= s[i] <= 'z'
  }

  /** Every character is an ASCII letter or a deleted character. */
  predicate LettersOrDeleted(w: string) {
    forall i :: 0 <= i < |w| ==> IsLetter(w[i]) || Deleted(w[i])
  }

  lemma AllLowerAppend(a: string, b: string)
    ensures AllLower(a + b) <==> AllLower(a) && AllLower(b)
  {
    var ab := a + b;
    assert forall i :: 0 <= i < |a| ==> ab[i] == a[i];
    assert forall i :: 0 <= i < |b| ==> ab[|a| + i] == b[i];
  }

  lemma LettersOrDeletedCons(w: string)
    requires w != []
    ensures LettersOrDeleted(w) <==> (IsLetter(w[0]) || Deleted(w[0])) && LettersOrDeleted(w[1..])
  {
    var t := w[1..];
    assert forall i :: 0 < i < |w| ==> w[i] == t[i - 1];
  }

  /** Every character is a deleted character. */
  predicate AllDeleted(w: string) {
    forall i :: 0 <= i < |w| ==> Deleted(w[i])
  }

  lemma AllDeletedCons(w: string)
    requires w != []
    ensures AllDeleted(w) <==> Deleted(w[0]) && AllDeleted(w[1..])
  {
    var t := w[1..];
    assert forall i :: 0 < i < |w| ==> w[i] == t[i - 1];
  }

  /** The normalised word is all a to z exactly when every character is a
      letter or deleted, and empty exactly when every character is deleted. */
  lemma NormalizedLetters(w: string)
    ensures AllLower(Normalize(w)) <==> LettersOrDeleted(w)
    ensures Normalize(w) == [] <==> AllDeleted(w)
  {
    NormalizedLower(w);
    NormalizedEmpty(w);
  }

  lemma {:induction false} NormalizedLower(w: string)
    ensures AllLower(Normalize(w)) <==> LettersOrDeleted(w)
    decreases |w|
  {
    if w != [] {
      var t := w[1..];
      NormalizedLower(t);
      NormalizeCons(w);
      LettersOrDeletedCons(w);
      var head := if Deleted(w[0]) then [] else [ToLower(w[0])];
      AllLowerAppend(head, Normalize(t));
      assert IsLetter(w[0]) <==> 'a' <= ToLower(w[0]) <= 'z';
      assert AllLower(head) <==> Deleted(w[0]) || 'a' <= ToLower(w[0]) <= 'z' by {
        if !Deleted(w[0]) {
          assert head[0] == ToLower(w[0]);
        }
      }
    }
  }

  lemma {:induction false} NormalizedEmpty(w: string)
    ensures Normalize(w) == [] <==> AllDeleted(w)
    decreases |w|
  {
    if w != [] {
      NormalizedEmpty(w[1..]);
      NormalizeCons(w);
      AllDeletedCons(w);
    }
  }

  /** Normalising a normalised word changes nothing. */
  lemma NormalizeIdempotent(word: string)
    ensures Normalize(Normalize(word)) == Normalize(word)
  {
    var n := Normalize(word);
    StripDeletedCounts(LowerCase(word));
    NoUpperAfterLower(LowerCase(word));
    LowerCaseFixed(n);
    StripDeletedFixed(n);
  }

  lemma {:induction false} NoUpperAfterLower(s: string)
    requires forall i :: 0 <= i < |s| ==> !('A' <= s[i] <= 'Z')
    ensures forall i :: 0 <= i < |StripDeleted(s)| ==> !('A' <= StripDeleted(s)[i] <= 'Z')
    decreases |s|
  {
    if s != [] {
      NoUpperAfterLower(s[1..]);
      var head := if Deleted(s[0]) then [] else [s[0]];
      var t := StripDeleted(s[1..]);
      assert StripDeleted(s) == head + t;
      assert forall i :: |head| <= i < |head + t| ==> (head + t)[i] == t[i - |head|];
    }
  }

  lemma {:induction false} StripDeletedFixed(s: string)
    requires forall c :: Deleted(c) ==> c !in s
    ensures StripDeleted(s) == s
    decreases |s|
  {
    if s != [] {
      assert s[0] in s;
      assert forall c :: c in s[1..] ==> c in s;
      StripDeletedFixed(s[1..]);
      assert [s[0]] + s[1..] == s;
    }
  }

  // ---------------------------------------------------------------------
  // Counting words

  /** The count stored for k, 0 when k has no entry. */
  function Count(m: map<string, int>, k: string): int {
    if k in m then m[k] else 0
  }

  /** The map after addWordIfCompatible(word): an accepted word's normalised
      form gains one (a new key starts from 0); a rejected word changes nothing. */
  function Added(m: map<string, int>, word: string): map<string, int> {
    var w := Normalize(word);
    if IsLowerWord(w) then m[w := Count(m, w) + 1] else m
  }

  /** The map after counting every word of words, first to last. */
  function AddedAll(m: map<string, int>, words: seq<string>): map<string, int>
    decreases |words|
  {
    if words == [] then m else Added(AddedAll(m, words[..|words| - 1]), words[|words| - 1])
  }

  /** Every key is a lower-case word counted at least once. */
  ghost predicate CountsOk(m: map<string, int>) {
    forall k :: k in m ==> IsLowerWord(k) && m[k] >= 1
  }

  /** One word counted: the count of its normalised form rises by exactly one
      when that form is accepted, and no other key appears or changes. */
  lemma AddedCount(m: map<string, int>, word: string, k: string)
    ensures Count(Added(m, word), k) ==
      Count(m, k) + (if k == Normalize(word) && IsLowerWord(k) then 1 else 0)
    ensures k in Added(m, word) <==> k in m || (k == Normalize(word) && IsLowerWord(k))
  {
  }

  lemma AddedCountsOk(m: map<string, int>, word: string)
    requires CountsOk(m)
    ensures CountsOk(Added(m, word))
  {
  }

  /** Counting two words gives the same map in either order. */
  lemma AddedCommutes(m: map<string, int>, a: string, b: string)
    ensures Added(Added(m, a), b) == Added(Added(m, b), a)
  {
    var wa, wb := Normalize(a), Normalize(b);
    if IsLowerWord(wa) && IsLowerWord(wb) && wa != wb {
      assert Added(Added(m, a), b) == m[wa := Count(m, wa) + 1][wb := Count(m, wb) + 1];
      assert Added(Added(m, b), a) == m[wb := Count(m, wb) + 1][wa := Count(m, wa) + 1];
    }
  }

  /** How many of the words normalise to k. */
  function Occurrences(words: seq<string>, k: string): nat
    decreases |words|
  {
    if words == [] then 0
    else Occurrences(words[..|words| - 1], k) + (if Normalize(words[|words| - 1]) == k then 1 else 0)
  }

  /** After counting a list of words, each lower-case word's count has risen
      by the number of words that normalise to it, and nothing else changed. */
  lemma {:induction false} AddedAllCount(m: map<string, int>, words: seq<string>, k: string)
    ensures Count(AddedAll(m, words), k) == Count(m, k) + (if IsLowerWord(k) then Occurrences(words, k) else 0)
    decreases |words|
  {
    if words != [] {
      AddedAllCount(m, words[..|words| - 1], k);
      AddedCount(AddedAll(m, words[..|words| - 1]), words[|words| - 1], k);
    }
  }

  lemma {:induction false} AddedAllCountsOk(m: map<string, int>, words: seq<string>)
    requires CountsOk(m)
    ensures CountsOk(AddedAll(m, words))
    decreases |words|
  {
    if words != [] {
      AddedAllCountsOk(m, words[..|words| - 1]);
      AddedCountsOk(AddedAll(m, words[..|words| - 1]), words[|words| - 1]);
    }
  }

  /** The word-count map of a scraper. */
  class WordCounts {
    var frequencyMap: map<string, int>

    ghost predicate Valid()
      reads this
    {
      CountsOk(frequencyMap)
    }

    /** The empty map both crawls start from. */
    constructor ()
      ensures frequencyMap == map[] && Valid()
    {
      frequencyMap := map[];
    }

    /** addWordIfCompatible: normalise, give up unless the result is all a to z,
        then add one to its count, putting 0 first for a new key. */
    method AddWordIfCompatible(word: string)
      modifies this
      ensures frequencyMap == Added(old(frequencyMap), word)
      ensures old(Valid()) ==> Valid()
    {
      var w := Normalize(word);
      if !IsLowerWord(w) {
        return;
      }
      if w !in frequencyMap {
        frequencyMap := frequencyMap[w := 0];
      }
      frequencyMap := frequencyMap[w := frequencyMap[w] + 1];
      if old(Valid()) {
        AddedCountsOk(old(frequencyMap), word);
      }
    }

    /** The word loop of parsePage over the words of the page text. */
    method AddWords(words: seq<string>)
      modifies this
      ensures frequencyMap == AddedAll(old(frequencyMap), words)
      ensures old(Valid()) ==> Valid()
    {
      for i := 0 to |words|
        invariant frequencyMap == AddedAll(old(frequencyMap), words[..i])
      {
        assert words[..i + 1][..i] == words[..i];
        AddWordIfCompatible(words[i]);
      }
      assert words[..|words|] == words;
      if old(Valid()) {
        AddedAllCountsOk(old(frequencyMap), words);
      }
    }
  }

  // ---------------------------------------------------------------------
  // Saving the counts

  /** list holds exactly the entries of m, each once, as (count, word) pairs. */
  ghost predicate ListsMap(list: seq<FrequencyContainer>, m: map<string, int>) {
    && (forall x :: x in list ==> x.word in m && m[x.word] == x.frequency)
    && (forall k :: k in m ==> FrequencyContainer(m[k], k) in list)
    && (forall x :: multiset(list)[x] <= 1)
  }

  /** Reordering such a list keeps it such a list. */
  lemma ListsMapPermutation(a: seq<FrequencyContainer>, b: seq<FrequencyContainer>, m: map<string, int>)
    requires ListsMap(a, m) && multiset(a) == multiset(b)
    ensures ListsMap(b, m)
  {
    forall x ensures x in a <==> x in b {
      assert x in a <==> x in multiset(a);
      assert x in b <==> x in multiset(b);
    }
  }

  /** The line written for one entry: toString's text and a newline. */
  function SavedLine(c: FrequencyContainer): string {
    ToString(c) + "\n"
  }

  /** The entrySet loop of saveFrequencyMap: one (count, word) pair per entry,
      in the map's own order (any order; a HashMap promises none). */
  method ListEntries(frequencyMap: map<string, int>) returns (freqList: seq<FrequencyContainer>)
    ensures ListsMap(freqList, frequencyMap) && |freqList| == |frequencyMap|
  {
    freqList := [];
    var keys := frequencyMap.Keys;
    while keys != {}
      invariant keys <= frequencyMap.Keys
      invariant |freqList| + |keys| == |frequencyMap.Keys|
      invariant forall x :: x in freqList ==> x.word in frequencyMap && frequencyMap[x.word] == x.frequency && x.word !in keys
      invariant forall k :: k in frequencyMap && k !in keys ==> FrequencyContainer(frequencyMap[k], k) in freqList
      invariant forall x :: multiset(freqList)[x] <= 1
      decreases |keys|
    {
      var k :| k in keys;
      var entry := FrequencyContainer(frequencyMap[k], k);
      assert entry !in freqList;
      freqList := freqList + [entry];
      keys := keys - {k};
    }
    assert |frequencyMap.Keys| == |frequencyMap|;
  }

  /** saveFrequencyMap without the file: list the entries of the map, sort
      them by count, largest first, and format one line per entry. The
      sorted list is returned with the lines. */
  method SaveFrequencyMap(frequencyMap: map<string, int>) returns (freqList: seq<FrequencyContainer>, lines: seq<string>)
    ensures ListsMap(freqList, frequencyMap) && |freqList| == |frequencyMap|
    ensures SortedDesc(freqList, Score)
    ensures |lines| == |freqList| && forall i :: 0 <= i < |lines| ==> lines[i] == SavedLine(freqList[i])
  {
    var unsorted := ListEntries(frequencyMap);
    freqList := SortDesc(unsorted, Score);
    SortDescSorted(unsorted, Score);
    SortDescPermutes(unsorted, Score);
    ListsMapPermutation(unsorted, freqList, frequencyMap);
    assert |freqList| == |multiset(freqList)| == |multiset(unsorted)| == |unsorted|;
    lines := WriteLines(freqList);
  }

  /** f applied to each element of list, in list order. */
  function MapSeq<A, B>(f: A -> B, list: seq<A>): seq<B>
    decreases |list|
  {
    if list == [] then [] else MapSeq(f, list[..|list| - 1]) + [f(list[|list| - 1])]
  }

  lemma {:induction false} MapSeqAt<A, B>(f: A -> B, list: seq<A>)
    ensures |MapSeq(f, list)| == |list|
    ensures forall i :: 0 <= i < |list| ==> MapSeq(f, list)[i] == f(list[i])
    decreases |list|
  {
    if list != [] {
      var init := list[..|list| - 1];
      MapSeqAt(f, init);
      assert forall i :: 0 <= i < |init| ==> list[i] == init[i];
    }
  }

  /** The writer loop of saveFrequencyMap: one saved line per entry, in list order. */
  method WriteLines(freqList: seq<FrequencyContainer>) returns (lines: seq<string>)
    ensures |lines| == |freqList| && forall i :: 0 <= i < |lines| ==> lines[i] == SavedLine(freqList[i])
  {
    lines := [];
    for i := 0 to |freqList|
      invariant lines == MapSeq(SavedLine, freqList[..i])
    {
      assert freqList[..i + 1][..i] == freqList[..i];
      lines := lines + [SavedLine(freqList[i])];
    }
    assert freqList[..|freqList|] == freqList;
    MapSeqAt(SavedLine, freqList);
  }

  /** What loadDict makes of a saved line, read back without its newline: a
      word of three or more letters comes back with the score of its count; a
      shorter word fails the length test on the first field and the whole
      line, colon and digits included, becomes the entry, with score 1. */
  lemma SavedLineLoads(c: FrequencyContainer)
    requires IsLowerWord(c.word) && IntMin <= c.frequency <= IntMax
    ensures |c.word| >= WordLengthThreshold ==>
      ReadLine(ToString(c)) == Keep(FrequencyContainer(ComputeScore(c.frequency, c.word), c.word))
    ensures |c.word| < WordLengthThreshold ==>
      ReadLine(ToString(c)) == Keep(FrequencyContainer(1, ToString(c)))
  {
    var digits := IntToString(c.frequency);
    assert ToString(c) == c.word + ":" + digits;
    assert ':' !in c.word by {
      forall i | 0 <= i < |c.word| ensures c.word[i] != ':' {
      }
    }
    FieldsOfJoined(c.word, digits);
    FieldsOfPlain(digits);
    assert Split(ToString(c)) == [c.word, digits] by {
      assert ':' in ToString(c) by {
        assert ToString(c)[|c.word|] == ':';
      }
    }
    ParseIntToString(c.frequency);
  }

  // ---------------------------------------------------------------------
  // The link rule of the Urban Dictionary crawl

  /** The text a link must contain to be followed. */
  const DefinePage: string := "https://www.urbandictionary.com/define.php"

  /** String.contains: sub occurs somewhere in s. */
  predicate Contains(s: string, sub: string)
    decreases |s|
  {
    sub <= s || (s != [] && Contains(s[1..], sub))
  }

  /** sub occurs in s exactly when some suffix of s starts with sub. */
  lemma ContainsSuffix(s: string, sub: string)
    ensures Contains(s, sub) <==> exists i :: 0 <= i <= |s| && sub <= s[i..]
  {
    if Contains(s, sub) {
      var i := ContainsWitness(s, sub);
    }
    if exists i :: 0 <= i <= |s| && sub <= s[i..] {
      var i :| 0 <= i <= |s| && sub <= s[i..];
      ContainsAt(s, sub, i);
    }
  }

  lemma {:induction false} ContainsAt(s: string, sub: string, i: nat)
    requires i <= |s| && sub <= s[i..]
    ensures Contains(s, sub)
    decreases i
  {
    if i > 0 {
      assert s[1..][i - 1..] == s[i..];
      ContainsAt(s[1..], sub, i - 1);
    }
  }

  lemma {:induction false} ContainsWitness(s: string, sub: string) returns (i: nat)
    requires Contains(s, sub)
    ensures i <= |s| && sub <= s[i..]
    decreases |s|
  {
    if sub <= s {
      i := 0;
    } else {
      var j := ContainsWitness(s[1..], sub);
      i := j + 1;
      assert s[1..][j..] == s[i..];
    }
  }

  predicate IsDefinitionLink(url: string) {
    Contains(url, DefinePage)
  }

  /** The crawl's queue of pages still to visit and the set of links seen. */
  datatype Links = Links(queue: seq<string>, travelled: set<string>)

  /** One link of a page: a definition link not seen before is marked as
      seen and queued; any other link changes nothing. */
  function AfterLink(s: Links, url: string): Links {
    if IsDefinitionLink(url) && url !in s.travelled then Links(s.queue + [url], s.travelled + {url}) else s
  }

  /** All the links of a page, in page order. */
  function AfterLinks(s: Links, urls: seq<string>): Links
    decreases |urls|
  {
    if urls == [] then s else AfterLink(AfterLinks(s, urls[..|urls| - 1]), urls[|urls| - 1])
  }

  /** The definition links among urls. */
  ghost function DefinitionLinks(urls: seq<string>): set<string> {
    set u | u in urls && IsDefinitionLink(u)
  }

  /** No definition link is queued twice, and every queued definition link
      has been seen. */
  ghost predicate QueueOk(s: Links) {
    && (forall i :: 0 <= i < |s.queue| && IsDefinitionLink(s.queue[i]) ==> s.queue[i] in s.travelled)
    && (forall i, j :: 0 <= i < j < |s.queue| && IsDefinitionLink(s.queue[j]) ==> s.queue[i] != s.queue[j])
  }

  lemma AfterLinkOk(s: Links, url: string)
    requires QueueOk(s)
    ensures QueueOk(AfterLink(s, url))
  {
    var r := AfterLink(s, url);
    if r != s {
      forall i, j | 0 <= i < j < |r.queue| && IsDefinitionLink(r.queue[j]) ensures r.queue[i] != r.queue[j] {
        if j == |s.queue| {
          assert r.queue[j] == url;
          if IsDefinitionLink(r.queue[i]) {
            assert r.queue[i] == s.queue[i] && s.queue[i] in s.travelled;
          }
        } else {
          assert r.queue[i] == s.queue[i] && r.queue[j] == s.queue[j];
        }
      }
    }
  }

  /** Reading a page's links keeps the queue free of repeated definition links. */
  lemma {:induction false} AfterLinksOk(s: Links, urls: seq<string>)
    requires QueueOk(s)
    ensures QueueOk(AfterLinks(s, urls))
    decreases |urls|
  {
    if urls != [] {
      AfterLinksOk(s, urls[..|urls| - 1]);
      AfterLinkOk(AfterLinks(s, urls[..|urls| - 1]), urls[|urls| - 1]);
    }
  }

  /** After a page's links, the seen set has gained exactly the page's
      definition links, and the queue has only grown at its end, by exactly
      the definition links that had not been seen before. */
  lemma AfterLinksEffect(s: Links, urls: seq<string>)
    ensures AfterLinks(s, urls).travelled == s.travelled + DefinitionLinks(urls)
    ensures |AfterLinks(s, urls).queue| >= |s.queue| && AfterLinks(s, urls).queue[..|s.queue|] == s.queue
    ensures forall u :: u in AfterLinks(s, urls).queue[|s.queue|..] <==>
      u in urls && IsDefinitionLink(u) && u !in s.travelled
  {
    AfterLinksTravelled(s, urls);
    AfterLinksGrows(s, urls);
    AfterLinksNew(s, urls);
  }

  lemma DefinitionLinksSnoc(urls: seq<string>)
    requires urls != []
    ensures var url := urls[|urls| - 1];
      DefinitionLinks(urls) == DefinitionLinks(urls[..|urls| - 1]) + (if IsDefinitionLink(url) then {url} else {})
  {
    assert urls == urls[..|urls| - 1] + [urls[|urls| - 1]];
  }

  lemma {:induction false} AfterLinksTravelled(s: Links, urls: seq<string>)
    ensures AfterLinks(s, urls).travelled == s.travelled + DefinitionLinks(urls)
    decreases |urls|
  {
    if urls != [] {
      AfterLinksTravelled(s, urls[..|urls| - 1]);
      DefinitionLinksSnoc(urls);
    }
  }

  lemma {:induction false} AfterLinksGrows(s: Links, urls: seq<string>)
    ensures |AfterLinks(s, urls).queue| >= |s.queue| && AfterLinks(s, urls).queue[..|s.queue|] == s.queue
    decreases |urls|
  {
    if urls != [] {
      AfterLinksGrows(s, urls[..|urls| - 1]);
      var p := AfterLinks(s, urls[..|urls| - 1]);
      assert (p.queue + [urls[|urls| - 1]])[..|s.queue|] == p.queue[..|s.queue|];
    }
  }

  lemma {:induction false} AfterLinksNew(s: Links, urls: seq<string>)
    ensures |AfterLinks(s, urls).queue| >= |s.queue|
    ensures forall u :: u in AfterLinks(s, urls).queue[|s.queue|..] <==>
      u in urls && IsDefinitionLink(u) && u !in s.travelled
    decreases |urls|
  {
    AfterLinksGrows(s, urls);
    if urls != [] {
      var init := urls[..|urls| - 1];
      var url := urls[|urls| - 1];
      AfterLinksNew(s, init);
      AfterLinksTravelled(s, init);
      var p := AfterLinks(s, init);
      var r := AfterLink(p, url);
      assert r == AfterLinks(s, urls);
      if r != p {
        assert r.queue[|s.queue|..] == p.queue[|s.queue|..] + [url];
      }
      assert forall u :: u in urls <==> u in init || u == url by {
        assert urls == init + [url];
      }
    }
  }

  /** The crawl state the link loop of parsePage updates. */
  class LinkQueue {
    var urlQueue: seq<string>
    var travelledUrls: set<string>

    ghost function State(): Links
      reads this
    {
      Links(urlQueue, travelledUrls)
    }

    /** The crawl starts with only the starting page queued and nothing seen. */
    constructor (startingUrl: string)
      ensures urlQueue == [startingUrl] && travelledUrls == {}
      ensures !IsDefinitionLink(startingUrl) ==> QueueOk(State())
    {
      urlQueue := [startingUrl];
      travelledUrls := {};
    }

    /** The link loop of parsePage over the absolute hrefs of a page. */
    method EnqueueLinks(links: seq<string>)
      modifies this
      ensures State() == AfterLinks(old(State()), links)
      ensures old(QueueOk(State())) ==> QueueOk(State())
    {
      for i := 0 to |links|
        invariant State() == AfterLinks(old(State()), links[..i])
      {
        assert links[..i + 1][..i] == links[..i];
        var linkUrl := links[i];
        if Contains(linkUrl, DefinePage) && linkUrl !in travelledUrls {
          travelledUrls := travelledUrls + {linkUrl};
          urlQueue := urlQueue + [linkUrl];
        }
      }
      assert links[..|links|] == links;
      if old(QueueOk(State())) {
        AfterLinksOk(old(State()), links);
      }
    }
  }
}
