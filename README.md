# name-anagrams in Dafny

name-anagrams finds anagrams of a person's name that are made of real,
popular words, and ranks them by how popular those words are.

Two scrapers build the word list:
- `UrbanDictionaryScraper` crawls definition pages.
- `WikipediaScraper` reads random articles.

Each scraper normalises every word of the page text. That means lower-casing
it and deleting the characters `. , " ! ? ( ) *` and newline. It then counts
the words that are left over and made only of `a`–`z`. Finally it writes one
`word:count` line per word, most frequent first.

`AnagramMe` reads at most 4000 such lines. A line with a second field and a
first field of at least 3 characters becomes an entry whose score is the count times the
cube of the word length. Any other line of at least 3 characters is kept
whole, as a word with score 1 (this covers `ab:5`, whose word is too short).
Shorter lines are dropped. The dictionary is then sorted by score, largest
first.

The anagram search itself works like this:
- It turns the name into a multiset of letters (`FrequencyMap`): lower-cased,
  with spaces dropped.
- It keeps only the dictionary words that can be spelled from those letters.
- It recurses on the letters left after each chosen word. An index keeps the
  chosen words in dictionary order, so each set of words is found once.
- The anagrams are ranked by the sum of their scores.

This project models that core:

| Module | What it models |
|---|---|
| `FrequencyMaps` (class `FrequencyMap`) | The letter table, with its cached size. |
| `Letters` | The value-level facts about the table: its total, the multiset it stands for, and what increment and decrement do to both. |
| `Text` | ASCII lower-casing. |
| `Decimal` | `Integer.toString` and `Integer.parseInt`. |
| `Dictionary` | The line rule of `loadDict`, `String.split(":")` and `computeScore`. |
| `StableSort` | `List.sort`: a stable sort, non-increasing by an integer key. |
| `FrequencyContainers` | The `(score, word)` pair, `getFrequencySum` and `toString`. |
| `AnagramSearch` | `filterDict` and `anagramHelper` as functions, with soundness, completeness, order and no-duplicates proved. |
| `Anagrams` | The imperative code of `AnagramMe`: `generateFrequencyMap`, `filterDict`, `anagramHelper`, `loadDict`, `findAnagrams` and the ranking in `main`. Each is proved against the functions above. |
| `Scrapers` | The code both scrapers share: `addWordIfCompatible`, the word loop and `saveFrequencyMap`. It also holds the Urban Dictionary link rule of `parsePage`. |
| `AliasedCopy` | `filterDict` as it behaves with the shared map of `copy()` (see Findings). |

Both scrapers' `addWordIfCompatible` and `saveFrequencyMap` have the same
text. One model covers both; the rows below cite each file.

## Model

| member | source | states |
|---|---|---|
| FrequencyMaps.FrequencyMap.constructor | src/FrequencyMap.java:9-14 | A new table is empty, has size 0, stands for no letters and is valid. |
| FrequencyMaps.FrequencyMap.Of | src/FrequencyMap.java:16-19 | The two-argument constructor stores exactly the map and size it is given. |
| FrequencyMaps.FrequencyMap.Put | src/FrequencyMap.java:27-36 | put sets the count. The size moves by the new count minus the previous one, which is 0 for an absent key. Consistency of the size is kept, and validity is kept for a positive count. |
| FrequencyMaps.FrequencyMap.Increment | src/FrequencyMap.java:43-49 | increment: a missing key starts at 0 and gains 1, and the size grows by 1. On a valid table exactly one copy of the character joins the letter multiset. |
| FrequencyMaps.FrequencyMap.Decrement | src/FrequencyMap.java:56-67 | decrement: the count drops by 1 and an entry that reaches zero or less is removed. The size drops by 1, and exactly one copy of the character leaves the letter multiset. |
| FrequencyMaps.FrequencyMap.Copy | src/FrequencyMap.java:73-75 | copy gives a fresh table with the same counts, size and letters. |
| FrequencyMaps.FrequencyMap.Contains | src/FrequencyMap.java:77-79 | On a valid table, contains is true exactly when the character is among the letters. |
| FrequencyMaps.FrequencyMap.Size | src/FrequencyMap.java:81-83 | On a valid table, size is the number of letters counted with repetition, not the number of distinct keys. |
| Letters.BagCount | src/FrequencyMap.java:9-10 | Each character occurs in the table's multiset as often as its positive count says. |
| Letters.BagSize | src/FrequencyMap.java:5-10 | With positive counts, the multiset holds as many letters as the counts add up to. |
| Letters.TotalPut | src/FrequencyMap.java:27-36 | Writing a count changes the total by the new count minus the old one. |
| Letters.IncrementedTotal | src/FrequencyMap.java:43-49 | increment raises the total by one. |
| Letters.IncrementedBag | src/FrequencyMap.java:43-49 | increment adds one copy of the character to the multiset and keeps every count positive. |
| Letters.DecrementedTotal | src/FrequencyMap.java:56-67 | decrement lowers the total by one. |
| Letters.DecrementedBag | src/FrequencyMap.java:56-67 | decrement removes one copy of the character from the multiset and keeps every count positive. |
| Letters.DecrementUndoesIncrement | src/FrequencyMap.java:43-67 | decrement after increment of the same character gives back the table. |
| Text.ToLower | src/AnagramMe.java:82 | A lower-cased character is never `A`–`Z`. It is `a`–`z` exactly when the character was a letter of either case, and it is a space exactly when the character was one. |
| Text.ToLowerIdempotent | src/AnagramMe.java:82 | Lower-casing a character twice is lower-casing it once. |
| Text.LowerCase | src/UrbanDictionaryScraper.java:93 | Lower-casing a string keeps its length. |
| Text.LowerCaseNoUpper | src/UrbanDictionaryScraper.java:93 | A lower-cased string holds no `A`–`Z`. |
| Text.LowerCaseFixed | src/UrbanDictionaryScraper.java:93 | A string without `A`–`Z` is its own lower-cased form. |
| Text.LowerCaseIdempotent | src/UrbanDictionaryScraper.java:93 | Lower-casing a string twice is lower-casing it once. |
| Dictionary.LongerWordScoresHigher | src/AnagramMe.java:27-31 | For a positive count, a longer word always scores strictly more than a shorter one. |
| Dictionary.FieldsJoin | src/AnagramMe.java:44 | The colon-separated fields hold no colon, and joining them with colons gives back the line. |
| Dictionary.ReadLine | src/AnagramMe.java:44-55 | The line rule. A kept word has at least 3 characters. A line is dropped exactly when it is shorter than 3. A parse failure needs a colon in the line. |
| Dictionary.ReadLines | src/AnagramMe.java:42 | The lines read are a prefix of the file: the whole file when it has at most 4000 lines, and exactly its first 4000 when it is longer. |
| Dictionary.CollectBounds | src/AnagramMe.java:42-56 | At most one entry is collected per line, and every entry's word has at least 3 characters. |
| Dictionary.CollectComplete | src/AnagramMe.java:42-56 | Loading reads every line exactly when no line has a malformed number after a long enough first field. |
| Dictionary.CollectStops | src/AnagramMe.java:48 | After a malformed number nothing more is collected, as when Integer.parseInt throws. |
| Decimal.DigitsRoundTrip | src/FrequencyContainer.java:31 | Reading back the decimal digits of a natural number gives the number. |
| Decimal.ParseIntToString | src/AnagramMe.java:48 | Integer.parseInt reads back every 32-bit int that Integer.toString wrote. |
| StableSort.SortDescSorted | src/AnagramMe.java:59-66 | The sorted list is non-increasing in its key. |
| StableSort.SortDescPermutes | src/AnagramMe.java:59-66 | The sorted list is a permutation of the input. |
| StableSort.SortDescStable | src/AnagramMe.java:59-66 | Elements with equal keys keep their relative order. |
| StableSort.SortDescMembers | src/AnagramMe.java:59-66 | The sorted list has exactly the elements of the input. |
| Anagrams.AnagramMe.constructor | src/AnagramMe.java:8 | The dictionary starts empty, so every word in it is long enough. |
| Anagrams.AnagramMe.LoadDict | src/AnagramMe.java:37-70 | loadDict collects from the first 4000 lines by the line rule, then sorts by score, largest first and stable. It stops unsorted at a malformed number. Every word in the dictionary keeps at least 3 characters. |
| Anagrams.LoadedLongWords | src/AnagramMe.java:45-55 | Loading and sorting keep every dictionary word at 3 or more characters. |
| Anagrams.PhraseLettersSpec | src/AnagramMe.java:82-87 | The letters counted are the lower-cased name with every space removed. |
| Anagrams.PhraseLettersLength | src/AnagramMe.java:82-87 | There are as many letters as the name has non-space characters. |
| Anagrams.GenerateFrequencyMap | src/AnagramMe.java:78-90 | The table built for a name is valid. It stands for exactly the lower-cased non-space letters of the name, and its size is their number. |
| Anagrams.TakeOut | src/AnagramMe.java:106-117 | The inner loop of filterDict fails exactly when the word does not fit the letters. The copy stays a valid table, and when the loop does not fail it holds the letters minus those of the word. The contract writes the word's letters as `PrefixBag` over the whole word, which equals `multiset(w)` by `Anagrams.PrefixBagWhole`. |
| Anagrams.WordFits | src/AnagramMe.java:104-122 | A word passes filterDict's tests exactly when it is no longer than the letters and uses no letter more often than they hold it. |
| Anagrams.FilterDict | src/AnagramMe.java:98-126 | filterDict returns exactly the words that fit the letters, in dictionary order. |
| AnagramSearch.Filtered | src/AnagramMe.java:98-126 | An entry is in the filtered list exactly when it is in the dictionary and fits the letters. |
| AnagramSearch.FilteredIsSubsequence | src/AnagramMe.java:103-121 | Filtering keeps the dictionary's order: the result is a subsequence. |
| Anagrams.TakeWord | src/AnagramMe.java:180-183 | The decrement loop takes exactly the word's letters out of the copy, and every decrement finds its key. |
| Anagrams.Turn | src/AnagramMe.java:164-188 | One turn of the loop appends to the anagrams exactly the step the search function describes. A word that uses all the letters is submitted. Otherwise the search recurses on the letters left, from the current index. |
| Anagrams.AnagramHelper | src/AnagramMe.java:151-189 | anagramHelper appends to the anagrams exactly the search function's result for the letters, the words used and the minimum index. |
| AnagramSearch.SearchSound | src/AnagramMe.java:151-189 | Every anagram emitted extends the words used, and its new words spell exactly the letters. |
| AnagramSearch.SearchAscending | src/AnagramMe.java:160-187 | For a list whose entries first occur in the dictionary in strictly increasing order (for the whole dictionary: no line repeats), the new words of every emitted anagram are in non-decreasing dictionary order. |
| AnagramSearch.SearchNoDuplicates | src/AnagramMe.java:162-187 | Under the same condition, no anagram is emitted twice. |
| AnagramSearch.SearchComplete | src/AnagramMe.java:151-189 | Under the same condition, any non-empty, dictionary-ordered list of words from the window that spells exactly the letters is emitted. |
| AnagramSearch.SearchLengths | src/AnagramMe.java:173-176 | An anagram found from scratch is non-empty, takes its words from the dictionary, and its word lengths add up to the number of letters. |
| AnagramSearch.SearchExactly | src/AnagramMe.java:151-189 | With distinct entries, a list is found exactly when it is non-empty, in dictionary order and spells the letters. |
| AnagramSearch.SearchNoReorderings | src/AnagramMe.java:162-163 | With distinct entries, no two anagrams found are reorderings of the same words. |
| AnagramSearch.SingleWordFound | src/AnagramMe.java:173-176 | A dictionary word that spells all the letters is found as a one-word anagram. |
| Anagrams.AnagramMe.FindAnagrams | src/AnagramMe.java:134-141 | findAnagrams returns the search from the whole dictionary over the name's letters, with no words used. |
| Anagrams.FoundAnagramSpellsName | src/AnagramMe.java:134-141 | Every anagram found spells the name: its letters are the lower-cased name without spaces, and its word lengths add up to the name's non-space characters. |
| Anagrams.Rank | src/AnagramMe.java:196-207 | The ranking is non-increasing in summed score and is a permutation of the anagrams. |
| Anagrams.RankStable | src/AnagramMe.java:196-207 | Anagrams with equal summed scores keep the order they were found in. |
| FrequencyContainers.GetFrequencySum | src/FrequencyContainer.java:21-27 | The loop returns the sum of the scores, 0 for an empty list. |
| FrequencyContainers.FrequencySumAppend | src/FrequencyContainer.java:21-27 | The sum over two lists joined is the sum of their sums. |
| FrequencyContainers.FrequencySumPermutation | src/FrequencyContainer.java:21-27 | The sum does not depend on the order of the words. |
| FrequencyContainers.ToString | src/FrequencyContainer.java:29-32 | toString begins with the word followed by a colon. The part after the colon parses back to the frequency. |
| Scrapers.StripDeletedCounts | src/UrbanDictionaryScraper.java:93 | Deleting the punctuation leaves none of it, and every other character keeps its count. |
| Scrapers.AcceptedWords | src/UrbanDictionaryScraper.java:93-97 | A word is counted exactly when it has an ASCII letter and holds nothing but ASCII letters and the deleted characters. |
| Scrapers.NormalizeIdempotent | src/WikipediaScraper.java:74 | Normalising a normalised word changes nothing. |
| Scrapers.AddedCount | src/UrbanDictionaryScraper.java:99-103 | Counting a word raises its normalised form's count by exactly one when it is accepted; a new key starts at 1. No other key appears or changes. |
| Scrapers.AddedCountsOk | src/WikipediaScraper.java:80-84 | Counting keeps every key a word of `a`–`z` with a count of at least 1. |
| Scrapers.AddedCommutes | src/UrbanDictionaryScraper.java:138-140 | Counting two words in either order gives the same map. |
| Scrapers.AddedAllCount | src/WikipediaScraper.java:100-105 | After counting a page's words, each word's count has risen by the number of page words that normalise to it. Nothing else has changed. |
| Scrapers.WordCounts.constructor | src/UrbanDictionaryScraper.java:24 | The count map starts empty. |
| Scrapers.WordCounts.AddWordIfCompatible | src/UrbanDictionaryScraper.java:91-104 | addWordIfCompatible leaves the map as the counting function says, and keeps it well-formed. |
| Scrapers.WordCounts.AddWords | src/WikipediaScraper.java:100-105 | The word loop leaves the map as counting all the words in order, and keeps it well-formed. |
| Scrapers.ListsMapPermutation | src/UrbanDictionaryScraper.java:74 | Reordering a list that holds each entry of the map once keeps it such a list. |
| Scrapers.ListEntries | src/WikipediaScraper.java:50-53 | The entry loop lists each entry of the map exactly once, as a (count, word) pair, in any order. |
| Scrapers.WriteLines | src/WikipediaScraper.java:59-61 | The writer loop writes one `word:count` line and a newline per entry, in list order. |
| Scrapers.SaveFrequencyMap | src/UrbanDictionaryScraper.java:68-83 | The saved list holds each entry of the map exactly once, sorted by non-increasing count. One `word:count` line and a newline is written per entry, in that order. |
| Scrapers.SavedLineLoads | src/UrbanDictionaryScraper.java:79 | A saved line of a word of 3 or more letters loads back as that word, scored from its count. A shorter word's line is kept whole with score 1. |
| Scrapers.ContainsSuffix | src/UrbanDictionaryScraper.java:126 | String.contains holds exactly when some suffix of the link starts with the text. |
| Scrapers.LinkQueue.constructor | src/UrbanDictionaryScraper.java:23-27 | The crawl starts with the starting page queued and no link seen. The queue invariant holds when the starting page is not a definition link. |
| Scrapers.LinkQueue.EnqueueLinks | src/UrbanDictionaryScraper.java:123-130 | The link loop leaves queue and seen set as the link rule says, and no definition link ends up queued twice. |
| Scrapers.AfterLinkOk | src/UrbanDictionaryScraper.java:126-129 | One link keeps every queued definition link seen and queued once. |
| Scrapers.AfterLinksOk | src/UrbanDictionaryScraper.java:123-130 | A page's links keep every queued definition link seen and queued once. |
| Scrapers.AfterLinksEffect | src/UrbanDictionaryScraper.java:123-130 | The seen set gains exactly the page's definition links. The queue only grows at its end, by exactly the definition links that had not been seen before. |
| AliasedCopy.SharedFilterLosesAnagram | src/FrequencyMap.java:73-75 | For the phrase "ab" and the dictionary ["ab", "ba"], the shared map loses "ba", while the value copy keeps both words. |

## Left out

- File I/O: the dictionary file and the saved file are sequences of lines. Opening, closing and the printing of an IOException are not modelled.
- Network and Jsoup: fetching pages, selecting `a[href]`, resolving `abs:href`, and extracting the text of `.meaning`, `.example` and `p` elements. The links and the words of a page are parameters.
- Splitting page text into words on spaces: the words arrive already split.
- The crawl loops `scrapeUrbanDictionary` and `scrapeWikipedia`: taking the next URL from the queue, stopping once enough distinct words are collected, and the random-article fetch. Their per-page work is modelled.
- `LogTableConstructor` and every `main`: printing, `subList(0, 2000)` and the hard-coded name and file paths.
- The `AnagramMe` constructor's call to `loadDict` on a path: the model's constructor gives an empty dictionary and `LoadDict` takes the file's lines.
- 32-bit overflow: scores, sums, sizes and counts are unbounded integers. `computeScore`, `getFrequencySum` and the size field can wrap in Java on huge inputs. Integer.parseInt's 32-bit range is modelled.
- Unicode: lower-casing covers ASCII `A`–`Z` only. Java's `toLowerCase` also maps other letters.
- Unicode digits: `Decimal.ParseInt` accepts ASCII digits only. Java's `Integer.parseInt` uses `Character.digit`, so it also reads other decimal digits, such as Arabic-Indic `٥` or full-width `５`. A line such as `abc:٥` loads with count 5 in Java, but is `Malformed` in the model.
- String length: a Dafny string is a sequence of Unicode scalar values, while Java's `String.length` counts UTF-16 code units. A character outside the Basic Multilingual Plane counts once in the model and twice in Java. This affects the word-length threshold, the score and the size checks.
- Anagrams.AnagramMe.LoadDict: its `false` result stands for the NumberFormatException that `Integer.parseInt` throws on a count that is not a number. In Java that exception is not caught: the constructor catches only IOException (src/AnagramMe.java:13-17), so no `AnagramMe` object is built at all.
- HashMap iteration order: `SaveFrequencyMap` lists the entries in an arbitrary order. Its contract holds for any order, so the order of equal counts in the output is not pinned down.
- In-place sorting: `List.sort` is modelled as `StableSort.SortDesc`, a stable sort function with the same ordering and stability, not an in-place TimSort.
- The shared `anagrams` list: `Anagrams.AnagramHelper` returns the list extended, instead of adding to one list shared by reference.
- The `continue` for a word longer than the letters in `anagramHelper`: filterDict already removes such words, so the branch is dead. The method asserts that; the search function keeps the branch.
- Object identity: entries are values, while Java tells two equal lines apart by reference. The search's order facts use the position where an entry FIRST occurs in the dictionary. `AnagramSearch.SearchExactly` and `AnagramSearch.SearchNoReorderings` assume distinct entries.
- AnagramSearch.SearchAscending: proved only for a dictionary in which no line repeats, the value form of Java's object identity. With a repeated line, for example D = [x, y, x], the search emits [y, x], which is not ascending by first occurrence.
- AnagramSearch.SearchNoDuplicates: proved only for a dictionary in which no line repeats. For D = [x, x] and a phrase spelled by x twice, the search emits [x, x] three times, as Java's search does for the position pairs (0, 0), (0, 1) and (1, 1).
- AnagramSearch.SearchComplete: proved only for a dictionary in which no line repeats, for the same reason.
- Anagrams.AnagramHelper: requires every dictionary word to be non-empty (`NonEmptyWords`, also required by `AnagramSearch.Search`). On an empty word with letters left, Java never terminates. filterDict keeps the word, because its length test passes and the letter loop never runs (src/AnagramMe.java:106-117). anagramHelper does not submit it, because its length differs from the size (:174). It removes no letter and recurses on the same letters with the empty word first again (:181-184), until a StackOverflowError. No caller passes such a word: `loadDict` keeps only words of 3 or more characters, and `findAnagrams` passes only the loaded dictionary. The `nat` bound `minimumIndex <= |dict|` likewise stands in for the IndexOutOfBoundsException that `subList` throws at :160 on a negative index or one past the end of the dictionary.
- Scrapers.LinkQueue.constructor: the queue invariant is promised only when the starting page is not a definition link. Java never adds the starting URL to `travelledUrls` (src/UrbanDictionaryScraper.java:23-27), so a definition page used as the start would be queued a second time by the first page that links to it. The start page in `main` (:146) is the site's front page, which is not a definition link.
- FrequencyMaps.FrequencyMap.Decrement: requires the key to be present. Java throws a NullPointerException there, which its own comment calls intended. With tables copied by value, as in this model, no caller reaches that case. With the shared map of `copy()` (see Findings), a caller does reach it: for the phrase "dog cat" and the dictionary ["dog", "cat"], filterDict empties the shared map, and the first decrement in anagramHelper (src/AnagramMe.java:182) throws.
- The sharing of the backing map by `copy()`: the model copies by value, as the comments of filterDict and anagramHelper intend (see Findings). `AliasedCopy` models the shared behaviour of filterDict only, not its knock-on effect on anagramHelper, where the emptied map makes a decrement throw (see the Decrement line above).

`loadDict`'s threshold of 3 (src/AnagramMe.java:45-47) applies only to the first field of a line. The scrapers also save words of one or two letters, and `loadDict` keeps such a line whole (for example `ab:5`) as a word with score 1. `Scrapers.SavedLineLoads` states both cases.

## Findings

| source | as written | input that shows it | evidently intended | confidence | as-written member | corrected member |
|---|---|---|---|---|---|---|
| src/FrequencyMap.java:73-75 | `copy()` passes its own backing map to the new table, so the decrements in filterDict's inner loop deplete the caller's map for every later word: each word takes out the letters it matched, up to its first miss. A consequence: anagramHelper's decrements can then miss their key and throw a NullPointerException (src/AnagramMe.java:182), for example for the phrase "dog cat" and the dictionary ["dog", "cat"]. | Phrase "ab", dictionary ["ab", "ba"]: filterDict keeps only "ab". | Each word checked against an untouched copy, so that every word that fits is kept (both "ab" and "ba"). | not executed | AliasedCopy.SharedFilterLosesAnagram | AnagramSearch.Filtered |
