/** String.toLowerCase restricted to ASCII: the letters A to Z become a to z
    and every other character stays as it is. */
module Text {

  /** toLowerCase on one character, for the ASCII letters A to Z. The result
      is a lower-case letter exactly when the character is a letter of either
      case, it is never an upper-case letter, and only a space becomes a
      space. */
  function ToLower(c: char): (r: char)
    ensures ('a' <= r <= 'z') <==> ('a' <= c <= 'z' || 'A' <= c <= 'Z')
    ensures !('A' <= r <= 'Z')
    ensures r == ' ' <==> c == ' '
  {
    if 'A' <= c <= 'Z' then (c as int + 32) as char else c
  }

  /** Lower-casing a character twice is lower-casing it once. */
  lemma ToLowerIdempotent(c: char)
    ensures ToLower(ToLower(c)) == ToLower(c)
  {
  }

  /** toLowerCase on a string, character by character; it keeps the length. */
  function LowerCase(s: string): (r: string)
    ensures |r| == |s|
  {
    seq(|s|, i requires 0 <= i < |s| => ToLower(s[i]))
  }

  /** Each character of the lower-cased string is the lower-cased character. */
  lemma LowerCaseAt(s: string, i: nat)
    requires i < |s|
    ensures LowerCase(s)[i] == ToLower(s[i])
  {
  }

  /** A lower-cased string holds no upper-case letter. */
  lemma LowerCaseNoUpper(s: string)
    ensures forall i :: 0 <= i < |s| ==> !('A' <= LowerCase(s)[i] <= 'Z')
  {
  }

  /** A string without upper-case letters is its own lower-case form. */
  lemma LowerCaseFixed(s: string)
    requires forall i :: 0 <= i < |s| ==> !('A' <= s[i] <= 'Z')
    ensures LowerCase(s) == s
  {
  }

  /** Lower-casing twice is lower-casing once. */
  lemma LowerCaseIdempotent(s: string)
    ensures LowerCase(LowerCase(s)) == LowerCase(s)
  {
    LowerCaseNoUpper(s);
    LowerCaseFixed(LowerCase(s));
  }
}
