/** The anagram search as a function: the filtering of the dictionary against
    the letters left, and the branch-and-bound recursion of anagramHelper over
    positions of the filtered list, with the facts proved about what it emits. */
module AnagramSearch {
  import opened FrequencyContainers

  type Entry = FrequencyContainer

  /** A word can be spelled from the letters M: it is not longer than M, and
      it uses no letter more often than M holds it. */
  predicate Fits(w: string, M: multiset<char>) {
    |w| <= |M| && multiset(w) <= M
  }

  ghost predicate NonEmptyWords(d: seq<Entry>) {
    forall e :: e in d ==> |e.word| >= 1
  }

  ghost predicate AllFit(d: seq<Entry>, M: multiset<char>) {
    forall e :: e in d ==> Fits(e.word, M)
  }

  /** The entries of d whose words fit M, in the order of d. */
  function Filtered(d: seq<Entry>, M: multiset<char>): (r: seq<Entry>)
    ensures forall e {:trigger e in r} :: e in r <==> e in d && Fits(e.word, M)
    decreases |d|
  {
    if d == [] then []
    else (if Fits(d[0].word, M) then [d[0]] else []) + Filtered(d[1..], M)
  }

  /** Filtering a window of d keeps only fitting words, all of them non-empty when d's are. */
  lemma FilteredWindow(d: seq<Entry>, k: nat, M: multiset<char>)
    requires k <= |d| && NonEmptyWords(d)
    ensures AllFit(Filtered(d[k..], M), M) && NonEmptyWords(Filtered(d[k..], M))
  {
    forall e | e in Filtered(d[k..], M) ensures Fits(e.word, M) && |e.word| >= 1 {
      assert e in d[k..];
      assert e in d;
    }
  }

  /** a is an order-preserving subsequence of b. */
  ghost predicate IsSubsequence(a: seq<Entry>, b: seq<Entry>)
    decreases |b|
  {
    if a == [] then true
    else if b == [] then false
    else if a[0] == b[0] then IsSubsequence(a[1..], b[1..])
    else IsSubsequence(a, b[1..])
  }

  /** Filtering keeps the order of the dictionary. */
  lemma {:induction false} FilteredIsSubsequence(d: seq<Entry>, M: multiset<char>)
    ensures IsSubsequence(Filtered(d, M), d)
    decreases |d|
  {
    if d != [] {
      FilteredIsSubsequence(d[1..], M);
      var rest := Filtered(d[1..], M);
      if Fits(d[0].word, M) {
        assert ([d[0]] + rest)[1..] == rest;
      } else if rest != [] {
        assert Filtered(d, M) == [] + rest == rest;
        assert rest[0] in rest && rest[0] != d[0];
        assert IsSubsequence(rest, d) == IsSubsequence(rest, d[1..]);
      }
    }
  }

  /** Filtering an extended list: the filtered old list, then the new entry if it fits. */
  lemma {:induction false} FilteredSnoc(d: seq<Entry>, e: Entry, M: multiset<char>)
    ensures Filtered(d + [e], M) == Filtered(d, M) + (if Fits(e.word, M) then [e] else [])
    decreases |d|
  {
    var t := if Fits(e.word, M) then [e] else [];
    if d == [] {
      assert [e][1..] == [];
      assert Filtered([e], M) == t + [];
    } else {
      var h := if Fits(d[0].word, M) then [d[0]] else [];
      assert (d + [e])[0] == d[0] && (d + [e])[1..] == d[1..] + [e];
      assert Filtered(d + [e], M) == h + Filtered(d[1..] + [e], M);
      FilteredSnoc(d[1..], e, M);
      assert h + (Filtered(d[1..], M) + t) == (h + Filtered(d[1..], M)) + t;
    }
  }

  /** Taking away letters that fit removes exactly that many. */
  lemma SubtractCard(A: multiset<char>, B: multiset<char>)
    requires B <= A
    ensures |A - B| == |A| - |B|
  {
    assert (A - B) + B == A;
  }

  /** A sub-multiset as large as the whole is the whole. */
  lemma SameSizeSubset(A: multiset<char>, B: multiset<char>)
    requires A <= B && |A| == |B|
    ensures A == B
  {
    SubtractCard(B, A);
    assert (B - A) + A == B;
  }

  /** The emitted anagrams of one call of anagramHelper: filter the window
      d[k..] against M, then walk the filtered list. */
  function Search(d: seq<Entry>, M: multiset<char>, used: seq<Entry>, k: nat): seq<seq<Entry>>
    requires k <= |d| && NonEmptyWords(d)
    decreases |M|, 2
  {
    assert forall e :: e in d[k..] ==> e in d;
    Loop(Filtered(d[k..], M), M, used, 0, 0)
  }

  /** The loop of anagramHelper from position i of the filtered list f, with
      index counting the entries not skipped. */
  function Loop(f: seq<Entry>, M: multiset<char>, used: seq<Entry>, i: nat, index: nat): seq<seq<Entry>>
    requires i <= |f| && index <= i && AllFit(f, M) && NonEmptyWords(f)
    decreases |M|, 1, |f| - i
  {
    if i == |f| then []
    else Step(f, M, used, i, index) + Loop(f, M, used, i + 1, if |f[i].word| > |M| then index else index + 1)
  }

  /** Every word of f fits M, so the loop emits the step at each position
      and goes on with the next index. */
  lemma LoopTake(f: seq<Entry>, M: multiset<char>, used: seq<Entry>, i: nat, index: nat)
    requires i < |f| && index <= i && AllFit(f, M) && NonEmptyWords(f)
    ensures Loop(f, M, used, i, index) == Step(f, M, used, i, index) + Loop(f, M, used, i + 1, index + 1)
  {
    assert f[i] in f;
  }

  /** The same, after the anagrams acc already collected: appending the step
      to acc and then walking on from i + 1 gives what walking from i gives. */
  lemma LoopTakeAfter(f: seq<Entry>, M: multiset<char>, used: seq<Entry>, i: nat, index: nat, acc: seq<seq<Entry>>)
    requires i < |f| && index <= i && AllFit(f, M) && NonEmptyWords(f)
    ensures acc + Loop(f, M, used, i, index) == (acc + Step(f, M, used, i, index)) + Loop(f, M, used, i + 1, index + 1)
  {
    LoopTake(f, M, used, i, index);
  }

  /** One turn of that loop, at the entry f[i]: a word longer than M would be
      skipped; a word as long as M closes an anagram; a shorter one recurses
      on the letters left, from position index of f. */
  function Step(f: seq<Entry>, M: multiset<char>, used: seq<Entry>, i: nat, index: nat): seq<seq<Entry>>
    requires i < |f| && index <= i && AllFit(f, M) && NonEmptyWords(f)
    decreases |M|, 0
  {
    var e := f[i];
    if |e.word| > |M| then []
    else if |e.word| == |M| then [used + [e]]
    else
      assert e in f;
      SubtractCard(M, multiset(e.word));
      Search(f, M - multiset(e.word), used + [e], index)
  }

  /** The letters of a sequence of words, concatenated. */
  function Concat(ws: seq<Entry>): string
    decreases |ws|
  {
    if ws == [] then "" else ws[0].word + Concat(ws[1..])
  }

  /** Sum of the word lengths of a sequence of words. */
  function LengthSum(ws: seq<Entry>): nat
    decreases |ws|
  {
    if ws == [] then 0 else |ws[0].word| + LengthSum(ws[1..])
  }

  lemma {:induction false} ConcatLength(ws: seq<Entry>)
    ensures |Concat(ws)| == LengthSum(ws)
    decreases |ws|
  {
    if ws != [] {
      ConcatLength(ws[1..]);
    }
  }

  /** Non-empty words make a non-empty concatenation. */
  lemma ConcatNonEmpty(ws: seq<Entry>)
    requires NonEmptyWords(ws)
    ensures ws != [] ==> |Concat(ws)| >= 1
  {
    if ws != [] {
      assert ws[0] in ws;
    }
  }

  /** What every emitted sequence a is: the words chosen before (used), then
      a non-empty run of words from the window d[k..] whose letters are exactly M. */
  ghost predicate Completes(a: seq<Entry>, used: seq<Entry>, d: seq<Entry>, k: nat, M: multiset<char>)
    requires k <= |d|
  {
    && |used| < |a| && a[..|used|] == used
    && multiset(Concat(a[|used|..])) == M
    && forall x :: x in a[|used|..] ==> x in d[k..]
  }

  /** Soundness of one call: every emission completes used with words of the
      window that use up M exactly. */
  lemma {:induction false} SearchSound(d: seq<Entry>, M: multiset<char>, used: seq<Entry>, k: nat)
    requires k <= |d| && NonEmptyWords(d)
    ensures forall a :: a in Search(d, M, used, k) ==> Completes(a, used, d, k, M)
    decreases |M|, 1
  {
    assert forall e :: e in d[k..] ==> e in d;
    var f := Filtered(d[k..], M);
    LoopSound(f, M, used, 0);
    assert f[0..] == f;
  }

  lemma {:induction false} LoopSound(f: seq<Entry>, M: multiset<char>, used: seq<Entry>, i: nat)
    requires i <= |f| && AllFit(f, M) && NonEmptyWords(f)
    ensures forall a :: a in Loop(f, M, used, i, i) ==> Completes(a, used, f, i, M)
    decreases |M|, 1, |f| - i
  {
    if i < |f| {
      LoopTake(f, M, used, i, i);
      LoopSound(f, M, used, i + 1);
      StepSound(f, M, used, i);
      assert forall x :: x in f[i + 1..] ==> x in f[i..];
    }
  }

  lemma {:induction false} StepSound(f: seq<Entry>, M: multiset<char>, used: seq<Entry>, i: nat)
    requires i < |f| && AllFit(f, M) && NonEmptyWords(f)
    ensures forall a :: a in Step(f, M, used, i, i) ==> Completes(a, used, f, i, M)
    decreases |M|, 0
  {
    var e := f[i];
    assert e in f;
    var w := e.word;
    if |w| == |M| {
      SameSizeSubset(multiset(w), M);
      var a := used + [e];
      assert a[..|used|] == used && a[|used|..] == [e];
      assert Concat([e]) == w;
    } else {
      var M' := M - multiset(w);
      SubtractCard(M, multiset(w));
      SearchSound(f, M', used + [e], i);
      forall a | a in Search(f, M', used + [e], i)
        ensures Completes(a, used, f, i, M)
      {
        CompletesExtend(a, used, e, f, i, M);
      }
    }
  }

  /** An emission that completes used + [f[i]] against the letters M minus
      f[i]'s word completes used against M. */
  lemma CompletesExtend(a: seq<Entry>, used: seq<Entry>, e: Entry, f: seq<Entry>, i: nat, M: multiset<char>)
    requires i < |f| && f[i] == e && multiset(e.word) <= M
    requires Completes(a, used + [e], f, i, M - multiset(e.word))
    ensures Completes(a, used, f, i, M)
  {
    var rest := a[|used| + 1..];
    assert a[..|used|] == (used + [e])[..|used|] == used;
    assert a[|used|] == (used + [e])[|used|] == e;
    assert a[|used|..] == [e] + rest;
    assert Concat([e] + rest) == e.word + Concat(rest);
    assert multiset(e.word + Concat(rest)) == multiset(e.word) + (M - multiset(e.word));
  }

  /** Position of the first occurrence of e in D. */
  function IndexIn(D: seq<Entry>, e: Entry): (p: nat)
    requires e in D
    ensures p < |D| && D[p] == e
    decreases |D|
  {
    if D[0] == e then 0 else 1 + IndexIn(D[1..], e)
  }

  /** No entry of D occurs twice. */
  ghost predicate Distinct(D: seq<Entry>) {
    forall i, j :: 0 <= i < j < |D| ==> D[i] != D[j]
  }

  /** d lists entries of D at strictly increasing positions of D. */
  ghost predicate InOrderOf(D: seq<Entry>, d: seq<Entry>) {
    && (forall x :: x in d ==> x in D)
    && forall i, j :: 0 <= i < j < |d| ==> IndexIn(D, d[i]) < IndexIn(D, d[j])
  }

  /** The canonical order: r takes entries of D without ever going back in D
      (an entry may repeat). */
  ghost predicate Ascending(D: seq<Entry>, r: seq<Entry>) {
    && (forall x :: x in r ==> x in D)
    && forall i, j :: 0 <= i < j < |r| ==> IndexIn(D, r[i]) <= IndexIn(D, r[j])
  }

  /** A dictionary without repeats is in its own order. */
  lemma DistinctInOrder(D: seq<Entry>)
    requires Distinct(D)
    ensures InOrderOf(D, D)
  {
    forall i | 0 <= i < |D| ensures IndexIn(D, D[i]) == i {
      var p := IndexIn(D, D[i]);
      assert D[p] == D[i];
    }
  }

  /** Windows and filtered lists of a list in the order of D are in the order of D. */
  lemma InOrderSuffix(D: seq<Entry>, d: seq<Entry>, k: nat)
    requires InOrderOf(D, d) && k <= |d|
    ensures InOrderOf(D, d[k..])
  {
    assert forall x :: x in d[k..] ==> x in d;
    forall i, j | 0 <= i < j < |d[k..]| ensures IndexIn(D, d[k..][i]) < IndexIn(D, d[k..][j]) {
      assert d[k..][i] == d[k + i] && d[k..][j] == d[k + j];
    }
  }

  /** Putting an entry earlier in D than all of s in front of s keeps the order of D. */
  lemma InOrderCons(D: seq<Entry>, x: Entry, s: seq<Entry>)
    requires InOrderOf(D, s) && x in D
    requires forall y :: y in s ==> IndexIn(D, x) < IndexIn(D, y)
    ensures InOrderOf(D, [x] + s)
  {
    var r := [x] + s;
    forall i, j | 0 <= i < j < |r| ensures IndexIn(D, r[i]) < IndexIn(D, r[j]) {
      InOrderConsAt(D, x, s, i, j);
    }
  }

  lemma InOrderConsAt(D: seq<Entry>, x: Entry, s: seq<Entry>, i: nat, j: nat)
    requires InOrderOf(D, s) && x in D
    requires forall y :: y in s ==> IndexIn(D, x) < IndexIn(D, y)
    requires i < j < |s| + 1
    ensures ([x] + s)[i] in D && ([x] + s)[j] in D
    ensures IndexIn(D, ([x] + s)[i]) < IndexIn(D, ([x] + s)[j])
  {
    var r := [x] + s;
    assert r[j] == s[j - 1] && s[j - 1] in s;
    if i > 0 {
      assert r[i] == s[i - 1];
    }
  }

  /** In a list in the order of D, everything after position i comes later in D than f[i]. */
  lemma StrictlyAfter(D: seq<Entry>, f: seq<Entry>, i: nat, x: Entry)
    requires InOrderOf(D, f) && i < |f| && x in f[i + 1..]
    ensures x in D && f[i] in D && IndexIn(D, f[i]) < IndexIn(D, x) && x != f[i]
  {
    var q :| i + 1 <= q < |f| && f[q] == x;
    assert f[i] in f && x in f;
  }

  /** In a list in the order of D, the entries of the window f[i..] come no
      earlier in D than f[i]. */
  lemma WindowAfter(D: seq<Entry>, f: seq<Entry>, i: nat, x: Entry)
    requires InOrderOf(D, f) && i < |f| && x in f[i..]
    ensures x in D && f[i] in D && IndexIn(D, f[i]) <= IndexIn(D, x)
  {
    var q :| i <= q < |f| && f[q] == x;
    assert f[i] in f && x in f;
  }

  lemma {:induction false} InOrderFiltered(D: seq<Entry>, d: seq<Entry>, M: multiset<char>)
    requires InOrderOf(D, d)
    ensures InOrderOf(D, Filtered(d, M))
    decreases |d|
  {
    if d != [] {
      InOrderSuffix(D, d, 1);
      InOrderFiltered(D, d[1..], M);
      var rest := Filtered(d[1..], M);
      if Fits(d[0].word, M) {
        assert d[0] in d;
        forall y | y in rest ensures IndexIn(D, d[0]) < IndexIn(D, y) {
          StrictlyAfter(D, d, 0, y);
        }
        InOrderCons(D, d[0], rest);
        assert Filtered(d, M) == [d[0]] + rest;
      } else {
        assert Filtered(d, M) == [] + rest == rest;
      }
    }
  }

  /** Canonical order of one call: every emission lists its new words without going back in D. */
  lemma {:induction false} SearchAscending(D: seq<Entry>, d: seq<Entry>, M: multiset<char>, used: seq<Entry>, k: nat)
    requires InOrderOf(D, d) && k <= |d| && NonEmptyWords(d)
    ensures forall a :: a in Search(d, M, used, k) ==> |used| <= |a| && Ascending(D, a[|used|..])
    decreases |M|, 2
  {
    assert forall e :: e in d[k..] ==> e in d;
    InOrderSuffix(D, d, k);
    InOrderFiltered(D, d[k..], M);
    LoopAscending(D, Filtered(d[k..], M), M, used, 0);
  }

  lemma {:induction false} LoopAscending(D: seq<Entry>, f: seq<Entry>, M: multiset<char>, used: seq<Entry>, i: nat)
    requires InOrderOf(D, f) && i <= |f| && AllFit(f, M) && NonEmptyWords(f)
    ensures forall a :: a in Loop(f, M, used, i, i) ==> |used| <= |a| && Ascending(D, a[|used|..])
    decreases |M|, 1, |f| - i
  {
    if i < |f| {
      LoopTake(f, M, used, i, i);
      LoopAscending(D, f, M, used, i + 1);
      StepAscending(D, f, M, used, i);
    }
  }

  lemma {:induction false} StepAscending(D: seq<Entry>, f: seq<Entry>, M: multiset<char>, used: seq<Entry>, i: nat)
    requires InOrderOf(D, f) && i < |f| && AllFit(f, M) && NonEmptyWords(f)
    ensures forall a :: a in Step(f, M, used, i, i) ==> |used| <= |a| && Ascending(D, a[|used|..])
    decreases |M|, 0
  {
    var e := f[i];
    assert e in f;
    var w := e.word;
    if |w| == |M| {
      var a := used + [e];
      assert a[|used|..] == [e];
    } else {
      var M' := M - multiset(w);
      SubtractCard(M, multiset(w));
      SearchAscending(D, f, M', used + [e], i);
      SearchSound(f, M', used + [e], i);
      forall a | a in Search(f, M', used + [e], i)
        ensures Ascending(D, a[|used|..])
      {
        AscendingExtend(D, a, used, f, i, M');
      }
    }
  }

  /** An emission after used + [f[i]] whose new words are canonical and come
      from f[i..] is canonical after used. */
  lemma AscendingExtend(D: seq<Entry>, a: seq<Entry>, used: seq<Entry>, f: seq<Entry>, i: nat, M: multiset<char>)
    requires InOrderOf(D, f) && i < |f|
    requires Completes(a, used + [f[i]], f, i, M) && Ascending(D, a[|used| + 1..])
    ensures Ascending(D, a[|used|..])
  {
    var e := f[i];
    var rest := a[|used| + 1..];
    assert a[|used|] == (used + [e])[|used|] == e;
    var r := a[|used|..];
    assert r == [e] + rest;
    forall x | x in rest ensures x in D && IndexIn(D, e) <= IndexIn(D, x) {
      WindowAfter(D, f, i, x);
    }
    assert e in D by {
      assert e in f;
    }
    forall p, q | 0 <= p < q < |r| ensures IndexIn(D, r[p]) <= IndexIn(D, r[q]) {
      assert r[q] == rest[q - 1];
      if p > 0 {
        assert r[p] == rest[p - 1];
      }
    }
  }

  /** The tail of a canonical sequence is canonical. */
  lemma AscendingTail(D: seq<Entry>, r: seq<Entry>)
    requires Ascending(D, r) && r != []
    ensures Ascending(D, r[1..])
  {
    forall p, q | 0 <= p < q < |r[1..]| ensures IndexIn(D, r[1..][p]) <= IndexIn(D, r[1..][q]) {
      assert r[1..][p] == r[p + 1] && r[1..][q] == r[q + 1];
    }
  }

  /** Two non-empty canonical sequences of entries of D with the same multiset start alike. */
  lemma AscendingSameHead(D: seq<Entry>, a: seq<Entry>, b: seq<Entry>)
    requires Ascending(D, a) && Ascending(D, b) && multiset(a) == multiset(b)
    requires a != [] && b != []
    ensures a[0] == b[0]
  {
    assert a[0] in multiset(b);
    assert b[0] in multiset(a);
    var p :| 0 <= p < |b| && b[p] == a[0];
    var q :| 0 <= q < |a| && a[q] == b[0];
    assert IndexIn(D, b[0]) <= IndexIn(D, b[p]);
    assert IndexIn(D, a[0]) <= IndexIn(D, a[q]);
    assert a[0] == D[IndexIn(D, a[0])];
    assert b[0] == D[IndexIn(D, b[0])];
  }

  /** Two canonical sequences of entries of D with the same multiset are equal. */
  lemma {:induction false} AscendingUnique(D: seq<Entry>, a: seq<Entry>, b: seq<Entry>)
    requires Ascending(D, a) && Ascending(D, b) && multiset(a) == multiset(b)
    ensures a == b
    decreases |a|
  {
    assert |a| == |multiset(a)| == |multiset(b)| == |b|;
    if a != [] {
      AscendingSameHead(D, a, b);
      TailMultiset(a);
      TailMultiset(b);
      AscendingTail(D, a);
      AscendingTail(D, b);
      AscendingUnique(D, a[1..], b[1..]);
      assert a == [a[0]] + a[1..] && b == [b[0]] + b[1..];
    }
  }

  /** The multiset of a non-empty sequence without its first element. */
  lemma TailMultiset(a: seq<Entry>)
    requires a != []
    ensures multiset(a[1..]) == multiset(a) - multiset{a[0]}
  {
    assert a == [a[0]] + a[1..];
  }

  ghost predicate NoDuplicates(s: seq<seq<Entry>>) {
    forall i, j :: 0 <= i < j < |s| ==> s[i] != s[j]
  }

  lemma NoDuplicatesAppend(A: seq<seq<Entry>>, B: seq<seq<Entry>>)
    requires NoDuplicates(A) && NoDuplicates(B)
    requires forall x :: x in A ==> x !in B
    ensures NoDuplicates(A + B)
  {
    forall i, j | 0 <= i < j < |A + B| ensures (A + B)[i] != (A + B)[j] {
      if i < |A| && j >= |A| {
        assert (A + B)[i] in A && (A + B)[j] == B[j - |A|];
      } else if i >= |A| {
        assert (A + B)[i] == B[i - |A|] && (A + B)[j] == B[j - |A|];
      }
    }
  }

  /** No sequence is emitted twice by one call (over a list in the order of D). */
  lemma {:induction false} SearchNoDuplicates(D: seq<Entry>, d: seq<Entry>, M: multiset<char>, used: seq<Entry>, k: nat)
    requires InOrderOf(D, d) && k <= |d| && NonEmptyWords(d)
    ensures NoDuplicates(Search(d, M, used, k))
    decreases |M|, 2
  {
    assert forall e :: e in d[k..] ==> e in d;
    InOrderSuffix(D, d, k);
    InOrderFiltered(D, d[k..], M);
    LoopNoDuplicates(D, Filtered(d[k..], M), M, used, 0);
  }

  lemma {:induction false} LoopNoDuplicates(D: seq<Entry>, f: seq<Entry>, M: multiset<char>, used: seq<Entry>, i: nat)
    requires InOrderOf(D, f) && i <= |f| && AllFit(f, M) && NonEmptyWords(f)
    ensures NoDuplicates(Loop(f, M, used, i, i))
    decreases |M|, 1, |f| - i
  {
    if i < |f| {
      LoopTake(f, M, used, i, i);
      LoopNoDuplicates(D, f, M, used, i + 1);
      StepNoDuplicates(D, f, M, used, i);
      StepHead(f, M, used, i);
      LoopSound(f, M, used, i + 1);
      var tail := Loop(f, M, used, i + 1, i + 1);
      forall a | a in tail ensures a[|used|] != f[i] {
        assert Completes(a, used, f, i + 1, M);
        assert a[|used|..][0] in a[|used|..];
        StrictlyAfter(D, f, i, a[|used|]);
      }
      NoDuplicatesAppend(Step(f, M, used, i, i), tail);
    }
  }

  /** Every emission of the turn at f[i] continues used with f[i]. */
  lemma StepHead(f: seq<Entry>, M: multiset<char>, used: seq<Entry>, i: nat)
    requires i < |f| && AllFit(f, M) && NonEmptyWords(f)
    ensures forall a :: a in Step(f, M, used, i, i) ==> |used| < |a| && a[|used|] == f[i]
  {
    var e := f[i];
    assert e in f;
    var w := e.word;
    if |w| < |M| {
      var M' := M - multiset(w);
      SubtractCard(M, multiset(w));
      SearchSound(f, M', used + [e], i);
      forall a | a in Search(f, M', used + [e], i) ensures a[|used|] == e {
        assert Completes(a, used + [e], f, i, M');
        assert a[..|used| + 1][|used|] == e;
      }
    }
  }

  lemma {:induction false} StepNoDuplicates(D: seq<Entry>, f: seq<Entry>, M: multiset<char>, used: seq<Entry>, i: nat)
    requires InOrderOf(D, f) && i < |f| && AllFit(f, M) && NonEmptyWords(f)
    ensures NoDuplicates(Step(f, M, used, i, i))
    decreases |M|, 0
  {
    var e := f[i];
    assert e in f;
    var w := e.word;
    if |w| < |M| {
      SubtractCard(M, multiset(w));
      SearchNoDuplicates(D, f, M - multiset(w), used + [e], i);
    }
  }

  /** The letters of a member of ws are among the letters of Concat(ws). */
  lemma {:induction false} ConcatContains(ws: seq<Entry>, x: Entry)
    requires x in ws
    ensures multiset(x.word) <= multiset(Concat(ws))
    decreases |ws|
  {
    if ws[0] != x {
      ConcatContains(ws[1..], x);
    }
  }

  /** The letters of a sequence of words: those of the first word and those of the rest. */
  lemma ConcatCons(ws: seq<Entry>)
    requires ws != []
    ensures multiset(Concat(ws)) == multiset(ws[0].word) + multiset(Concat(ws[1..]))
  {
  }

  /** Completeness of one call: every canonical run of window words whose
      letters are exactly M is emitted after used. */
  lemma {:induction false} SearchComplete(D: seq<Entry>, d: seq<Entry>, M: multiset<char>, used: seq<Entry>, k: nat, rest: seq<Entry>)
    requires InOrderOf(D, d) && k <= |d| && NonEmptyWords(d)
    requires rest != [] && Ascending(D, rest) && multiset(Concat(rest)) == M
    requires forall x :: x in rest ==> x in d[k..]
    ensures used + rest in Search(d, M, used, k)
    decreases |M|, 3
  {
    assert forall e :: e in d[k..] ==> e in d;
    InOrderSuffix(D, d, k);
    InOrderFiltered(D, d[k..], M);
    var f := Filtered(d[k..], M);
    forall x | x in rest ensures x in f {
      RunWordFits(rest, x, M);
    }
    var e := rest[0];
    assert e in rest;
    var p :| 0 <= p < |f| && f[p] == e;
    forall x | x in rest[1..] ensures x in f[p..] {
      RunAfterHead(D, f, p, rest, x);
    }
    LoopComplete(D, f, M, used, 0, p, rest);
  }

  /** Every word of a run whose letters are M fits M. */
  lemma RunWordFits(rest: seq<Entry>, x: Entry, M: multiset<char>)
    requires x in rest && multiset(Concat(rest)) == M
    ensures Fits(x.word, M)
  {
    ConcatContains(rest, x);
    SubtractCard(M, multiset(x.word));
  }

  /** In a canonical run whose words all lie in f (a list in the order of D)
      and which starts at f[p], the later words lie in f[p..]. */
  lemma RunAfterHead(D: seq<Entry>, f: seq<Entry>, p: nat, rest: seq<Entry>, x: Entry)
    requires InOrderOf(D, f) && p < |f| && rest != [] && rest[0] == f[p]
    requires Ascending(D, rest) && (forall y :: y in rest ==> y in f)
    requires x in rest[1..]
    ensures x in f[p..]
  {
    var t :| 0 <= t < |rest[1..]| && rest[1..][t] == x;
    assert rest[t + 1] == x;
    assert IndexIn(D, rest[0]) <= IndexIn(D, rest[t + 1]);
    assert x in rest;
    var q :| 0 <= q < |f| && f[q] == x;
    assert IndexIn(D, f[p]) <= IndexIn(D, f[q]);
    assert f[p..][q - p] == x;
  }

  /** The situation of the completeness proof inside the loop over f: the
      run rest starts with f[p], its other words lie in f[p..], and its
      letters are exactly M. */
  ghost predicate RunAt(D: seq<Entry>, f: seq<Entry>, M: multiset<char>, p: nat, rest: seq<Entry>) {
    && InOrderOf(D, f) && AllFit(f, M) && NonEmptyWords(f) && p < |f|
    && rest != [] && rest[0] == f[p] && Ascending(D, rest)
    && (forall x :: x in rest[1..] ==> x in f[p..])
    && multiset(Concat(rest)) == M
  }

  lemma {:induction false} LoopComplete(D: seq<Entry>, f: seq<Entry>, M: multiset<char>, used: seq<Entry>, i: nat, p: nat, rest: seq<Entry>)
    requires RunAt(D, f, M, p, rest) && i <= p
    ensures used + rest in Loop(f, M, used, i, i)
    decreases |M|, 2, |f| - i
  {
    LoopTake(f, M, used, i, i);
    if i < p {
      LoopComplete(D, f, M, used, i + 1, p, rest);
    } else {
      StepComplete(D, f, M, used, p, rest);
    }
  }

  lemma {:induction false} StepComplete(D: seq<Entry>, f: seq<Entry>, M: multiset<char>, used: seq<Entry>, p: nat, rest: seq<Entry>)
    requires RunAt(D, f, M, p, rest)
    ensures used + rest in Step(f, M, used, p, p)
    decreases |M|, 1
  {
    var e := f[p];
    var w := e.word;
    var tail := rest[1..];
    assert rest == [e] + tail;
    ConcatCons(rest);
    assert |M| == |w| + |Concat(tail)|;
    forall x | x in tail ensures x in f {
      assert x in f[p..];
    }
    assert e in f;
    ConcatNonEmpty(tail);
    if |w| == |M| {
      assert used + rest == used + [e];
    } else {
      StepShorter(D, f, M, used, p, rest);
    }
  }

  /** The turn at a word shorter than M: the run's remaining words are found
      by the recursive search on the letters left. */
  lemma {:induction false} StepShorter(D: seq<Entry>, f: seq<Entry>, M: multiset<char>, used: seq<Entry>, p: nat, rest: seq<Entry>)
    requires RunAt(D, f, M, p, rest) && |rest| > 1 && |f[p].word| < |M|
    ensures used + rest in Step(f, M, used, p, p)
    decreases |M|, 0
  {
    var e := f[p];
    assert e in f;
    var tail := rest[1..];
    var M' := M - multiset(e.word);
    TailLetters(rest, M);
    SubtractCard(M, multiset(e.word));
    AscendingTail(D, rest);
    SearchComplete(D, f, M', used + [e], p, tail);
    AppendHead(used, rest);
  }

  lemma AppendHead(used: seq<Entry>, rest: seq<Entry>)
    requires rest != []
    ensures (used + [rest[0]]) + rest[1..] == used + rest
  {
    assert rest == [rest[0]] + rest[1..];
  }

  /** The words after the first of a run spell what the first leaves of its letters. */
  lemma TailLetters(rest: seq<Entry>, M: multiset<char>)
    requires rest != [] && multiset(Concat(rest)) == M
    ensures multiset(rest[0].word) <= M && multiset(Concat(rest[1..])) == M - multiset(rest[0].word)
  {
    ConcatCons(rest);
  }

  /** Every anagram the full search emits uses dictionary words whose
      lengths add up to the number of letters of the phrase. */
  lemma SearchLengths(D: seq<Entry>, M: multiset<char>, a: seq<Entry>)
    requires NonEmptyWords(D) && a in Search(D, M, [], 0)
    ensures a != [] && LengthSum(a) == |M|
    ensures forall x :: x in a ==> x in D
  {
    SearchSound(D, M, [], 0);
    assert a[0..] == a && D[0..] == D;
    ConcatLength(a);
  }

  /** Over a dictionary without repeated entries the full search emits
      exactly the canonical anagrams of M: the non-empty sequences of
      dictionary words, never going back in the dictionary, whose letters
      are exactly M. */
  lemma SearchExactly(D: seq<Entry>, M: multiset<char>, a: seq<Entry>)
    requires Distinct(D) && NonEmptyWords(D)
    ensures a in Search(D, M, [], 0) <==> a != [] && Ascending(D, a) && multiset(Concat(a)) == M
  {
    DistinctInOrder(D);
    assert a[0..] == a && D[0..] == D;
    if a in Search(D, M, [], 0) {
      SearchSound(D, M, [], 0);
      SearchAscending(D, D, M, [], 0);
    }
    if a != [] && Ascending(D, a) && multiset(Concat(a)) == M {
      SearchComplete(D, D, M, [], 0, a);
      assert [] + a == a;
    }
  }

  /** Over a dictionary without repeated entries no two emitted anagrams are
      reorderings of each other. */
  lemma SearchNoReorderings(D: seq<Entry>, M: multiset<char>)
    requires Distinct(D) && NonEmptyWords(D)
    ensures var R := Search(D, M, [], 0);
      forall i, j :: 0 <= i < j < |R| ==> multiset(R[i]) != multiset(R[j])
  {
    var R := Search(D, M, [], 0);
    DistinctInOrder(D);
    SearchNoDuplicates(D, D, M, [], 0);
    SearchAscending(D, D, M, [], 0);
    forall i, j | 0 <= i < j < |R| ensures multiset(R[i]) != multiset(R[j]) {
      assert R[i] in R && R[j] in R;
      assert R[i][0..] == R[i] && R[j][0..] == R[j];
      if multiset(R[i]) == multiset(R[j]) {
        AscendingUnique(D, R[i], R[j]);
      }
    }
  }

  /** The loop from any position up to that of a word spelling all of M
      emits that word on its own. */
  lemma {:induction false} LoopReaches(f: seq<Entry>, M: multiset<char>, i: nat, p: nat)
    requires i <= p < |f| && AllFit(f, M) && NonEmptyWords(f) && multiset(f[p].word) == M
    ensures [f[p]] in Loop(f, M, [], i, i)
    decreases p - i
  {
    LoopTake(f, M, [], i, i);
    if i == p {
      assert [] + [f[p]] == [f[p]];
      assert Step(f, M, [], i, i) == [[f[p]]];
    } else {
      LoopReaches(f, M, i + 1, p);
    }
  }

  /** A dictionary word spelling the whole phrase on its own is found. */
  lemma SingleWordFound(D: seq<Entry>, M: multiset<char>, e: Entry)
    requires NonEmptyWords(D) && e in D && multiset(e.word) == M
    ensures [e] in Search(D, M, [], 0)
  {
    assert D[0..] == D;
    var f := Filtered(D, M);
    FilteredWindow(D, 0, M);
    assert e in f;
    LoopReaches(f, M, 0, IndexIn(f, e));
  }
}
