/** What loadDict does with the lines of a dictionary file: the colon split,
    the line rule, the 4000-line cap and the score of an entry. Reading the
    file itself is not modelled; the lines are given. */
module Dictionary {
  import opened Options
  import opened Decimal
  import opened FrequencyContainers

  /** Shortest word the dictionary keeps. */
  const WordLengthThreshold: nat := 3
  /** Most lines read from the file. */
  const MaxLines: nat := 4000

  /** computeScore: the frequency times the cube of the word length. */
  function ComputeScore(frequency: int, word: string): int {
    frequency * |word| * |word| * |word|
  }

  /** For the same positive frequency, a longer word scores strictly higher. */
  lemma LongerWordScoresHigher(frequency: int, shorter: string, longer: string)
    requires frequency > 0 && |shorter| < |longer|
    ensures ComputeScore(frequency, shorter) < ComputeScore(frequency, longer)
  {
    var a, b := |shorter|, |longer|;
    CubeLess(a, b);
    MulStrictMono(frequency, a * a * a, b * b * b);
    MulAssoc3(frequency, a);
    MulAssoc3(frequency, b);
  }

  lemma CubeLess(a: nat, b: nat)
    requires a < b
    ensures a * a * a < b * b * b
  {
    MulLeftMono(a, a, b);
    MulLeftMono(b, a, b);
    assert a * a <= b * b;
    MulLeftMono(a, a * a, b * b);
    MulStrictMono(b * b, a, b);
    assert a * (a * a) == a * a * a;
    assert a * (b * b) == b * b * a;
  }

  lemma MulAssoc3(k: int, a: int)
    ensures k * a * a * a == k * (a * a * a)
  {
  }

  lemma MulLeftMono(k: nat, x: nat, y: nat)
    requires x <= y
    ensures k * x <= k * y
  {
  }

  lemma MulStrictMono(k: int, x: int, y: int)
    requires k > 0 && x < y
    ensures k * x < k * y
  {
  }

  /** The pieces of s between colons, empty pieces included. */
  function Fields(s: string): (r: seq<string>)
    ensures |r| >= 1
    decreases |s|
  {
    if s == [] then [""]
    else
      var rest := Fields(s[1..]);
      if s[0] == ':' then [""] + rest else [[s[0]] + rest[0]] + rest[1..]
  }

  /** The pieces joined back with colons. */
  function Join(fs: seq<string>): string
    requires |fs| >= 1
    decreases |fs|
  {
    if |fs| == 1 then fs[0] else fs[0] + ":" + Join(fs[1..])
  }

  /** No piece holds a colon, and joining the pieces gives s back. */
  lemma {:induction false} FieldsJoin(s: string)
    ensures forall i :: 0 <= i < |Fields(s)| ==> ':' !in Fields(s)[i]
    ensures Join(Fields(s)) == s
    decreases |s|
  {
    if s != [] {
      FieldsJoin(s[1..]);
      var rest := Fields(s[1..]);
      if s[0] == ':' {
        assert ([""] + rest)[1..] == rest;
      } else {
        var r := [[s[0]] + rest[0]] + rest[1..];
        forall i | 0 <= i < |r| ensures ':' !in r[i] {
          if i > 0 {
            assert r[i] == rest[i];
          }
        }
        if |rest| > 1 {
          assert r[1..] == rest[1..];
          assert Join(rest) == rest[0] + ":" + Join(rest[1..]);
        }
        assert s == [s[0]] + s[1..];
      }
    }
  }

  /** A colon-free piece followed by a colon splits off as the first field. */
  lemma {:induction false} FieldsOfJoined(a: string, b: string)
    requires ':' !in a
    ensures Fields(a + ":" + b) == [a] + Fields(b)
    decreases |a|
  {
    if a == [] {
      assert (a + ":" + b)[1..] == b;
    } else {
      FieldsOfJoined(a[1..], b);
      assert (a + ":" + b)[1..] == a[1..] + ":" + b;
      assert [a[0]] + a[1..] == a;
    }
  }

  lemma {:induction false} FieldsOfPlain(a: string)
    requires ':' !in a
    ensures Fields(a) == [a]
    decreases |a|
  {
    if a != [] {
      FieldsOfPlain(a[1..]);
      assert [a[0]] + a[1..] == a;
    }
  }

  /** Drops empty pieces from the end, as String.split does when it found a separator. */
  function DropTrailingEmpty(fs: seq<string>): (r: seq<string>)
    ensures |r| <= |fs| && r == fs[..|r|]
    ensures r != [] ==> r[|r| - 1] != ""
    ensures forall i :: |r| <= i < |fs| ==> fs[i] == ""
    decreases |fs|
  {
    if fs != [] && fs[|fs| - 1] == "" then DropTrailingEmpty(fs[..|fs| - 1]) else fs
  }

  /** String.split(":"): the whole string when it holds no colon, otherwise
      the fields without the empty ones at the end. */
  function Split(s: string): seq<string> {
    if ':' !in s then [s] else DropTrailingEmpty(Fields(s))
  }

  /** What one line of the dictionary file yields. */
  datatype LineOutcome =
    | Keep(entry: FrequencyContainer)
    | Skip
    | Malformed   // Integer.parseInt throws on the second field

  /** The line rule: a line whose split has more than one field and whose
      first field has at least three characters gives that field, scored with
      the parsed second field; otherwise a line of three or more characters
      is kept whole with score 1; otherwise the line is dropped. */
  function ReadLine(line: string): (r: LineOutcome)
    ensures r.Keep? ==> |r.entry.word| >= WordLengthThreshold
    ensures r.Skip? <==> |line| < WordLengthThreshold
    ensures r.Malformed? ==> ':' in line
  {
    var parts := Split(line);
    if |parts| > 1 && |parts[0]| >= WordLengthThreshold then
      assert |line| >= WordLengthThreshold by {
        FieldsJoin(line);
        var fs := Fields(line);
        assert parts[0] == fs[0];
        assert Join(fs) == fs[0] + ":" + Join(fs[1..]);
      }
      match ParseInt(parts[1])
      case None => Malformed
      case Some(f) => Keep(FrequencyContainer(ComputeScore(f, parts[0]), parts[0]))
    else if |line| >= WordLengthThreshold then Keep(FrequencyContainer(1, line))
    else Skip
  }

  /** The entries collected from some lines, and whether every line was read
      (false when a malformed number stopped the loading). */
  datatype Loaded = Loaded(entries: seq<FrequencyContainer>, complete: bool)

  /** The loading loop over the given lines, in order; it stops at the first malformed line. */
  function Collect(lines: seq<string>): Loaded
    decreases |lines|
  {
    if lines == [] then Loaded([], true)
    else
      var prev := Collect(lines[..|lines| - 1]);
      if !prev.complete then prev
      else
        match ReadLine(lines[|lines| - 1])
        case Keep(e) => Loaded(prev.entries + [e], true)
        case Skip => prev
        case Malformed => Loaded(prev.entries, false)
  }

  /** At most one entry per line, and every entry's word is long enough. */
  lemma {:induction false} CollectBounds(lines: seq<string>)
    ensures |Collect(lines).entries| <= |lines|
    ensures forall e :: e in Collect(lines).entries ==> |e.word| >= WordLengthThreshold
    decreases |lines|
  {
    if lines != [] {
      CollectBounds(lines[..|lines| - 1]);
    }
  }

  /** One more line read by the loading loop, while no line before it was malformed. */
  lemma CollectNext(lines: seq<string>, n: nat)
    requires n < |lines| && Collect(lines[..n]).complete
    ensures Collect(lines[..n + 1]) == match ReadLine(lines[n])
      case Keep(e) => Loaded(Collect(lines[..n]).entries + [e], true)
      case Skip => Collect(lines[..n])
      case Malformed => Loaded(Collect(lines[..n]).entries, false)
  {
    assert lines[..n + 1][..n] == lines[..n];
  }

  /** Loading finishes exactly when no line is malformed. */
  lemma {:induction false} CollectComplete(lines: seq<string>)
    ensures Collect(lines).complete <==> AllWellFormed(lines)
    decreases |lines|
  {
    if lines != [] {
      var init := lines[..|lines| - 1];
      CollectComplete(init);
      CollectLast(lines);
      AllWellFormedSnoc(lines);
    }
  }

  /** The last line decides completeness once the lines before it were all read. */
  lemma CollectLast(lines: seq<string>)
    requires lines != []
    ensures Collect(lines).complete <==>
      Collect(lines[..|lines| - 1]).complete && !ReadLine(lines[|lines| - 1]).Malformed?
  {
  }

  /** No line is malformed. */
  ghost predicate AllWellFormed(lines: seq<string>) {
    forall i :: 0 <= i < |lines| ==> !ReadLine(lines[i]).Malformed?
  }

  lemma AllWellFormedSnoc(lines: seq<string>)
    requires lines != []
    ensures AllWellFormed(lines) <==>
      AllWellFormed(lines[..|lines| - 1]) && !ReadLine(lines[|lines| - 1]).Malformed?
  {
    var init := lines[..|lines| - 1];
    assert forall i :: 0 <= i < |init| ==> init[i] == lines[i];
  }

  /** The lines loadDict reads: at most the first MaxLines, however many of them are kept. */
  function ReadLines(lines: seq<string>): (r: seq<string>)
    ensures |r| <= |lines| && |r| <= MaxLines && r == lines[..|r|]
    ensures |lines| > MaxLines ==> |r| == MaxLines
    ensures |lines| <= MaxLines ==> r == lines
  {
    if |lines| <= MaxLines then lines else lines[..MaxLines]
  }

  /** Once a malformed line has stopped the loading, later lines change nothing. */
  lemma {:induction false} CollectStops(lines: seq<string>, n: nat)
    requires n <= |lines| && !Collect(lines[..n]).complete
    ensures Collect(lines) == Collect(lines[..n])
    decreases |lines|
  {
    if n < |lines| {
      var init := lines[..|lines| - 1];
      assert init[..n] == lines[..n];
      CollectStops(init, n);
    } else {
      assert lines[..n] == lines;
    }
  }
}
