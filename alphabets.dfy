/** The four fixed ASCII alphabets of Python's `string` module that the
    generator draws from, and an independent description of each as a
    character class. */
module Alphabets {

  /** `string.ascii_uppercase` */
  const AsciiUppercase: string := "ABCDEFGHIJKLMNOPQRSTUVWXYZ"
  /** `string.ascii_lowercase` */
  const AsciiLowercase: string := "abcdefghijklmnopqrstuvwxyz"
  /** `string.digits` */
  const Digits: string := "0123456789"
  /** `string.punctuation`: every printable, non-blank ASCII character that is
      neither a letter nor a digit, in code-point order. */
  const Punctuation: string := "!\"#$%&'()*+,-./:;<=>?@[\\]^_`{|}~"

  predicate IsUpper(c: char) { 'A' <= c <= 'Z' }
  predicate IsLower(c: char) { 'a' <= c <= 'z' }
  predicate IsDigit(c: char) { '0' <= c <= '9' }

  /** Printable ASCII (space excluded) that is not alphanumeric. */
  predicate IsPunctuation(c: char)
  {
    '!' <= c <= '~' && !IsUpper(c) && !IsLower(c) && !IsDigit(c)
  }

  /** The characters from `lo` to `hi` inclusive, in code-point order. */
  function AsciiRange(lo: char, hi: char): (r: string)
    requires lo <= hi <= '~'
    ensures |r| == hi as int - lo as int + 1
    ensures r[0] == lo && r[|r| - 1] == hi
  {
    seq(hi as int - lo as int + 1, i requires 0 <= i <= hi as int - lo as int => (lo as int + i) as char)
  }

  /** Each alphabet is the contiguous range of code points its class names. */
  lemma AlphabetsAreRanges()
    ensures AsciiUppercase == AsciiRange('A', 'Z')
    ensures AsciiLowercase == AsciiRange('a', 'z')
    ensures Digits == AsciiRange('0', '9')
    ensures Punctuation == AsciiRange('!', '/') + AsciiRange(':', '@') + AsciiRange('[', '`') + AsciiRange('{', '~')
  {
  }

  lemma AlphabetSizes()
    ensures |AsciiUppercase| == 26 && |AsciiLowercase| == 26
    ensures |Digits| == 10 && |Punctuation| == 32
  {
  }

  /** Membership in each alphabet coincides with its character class. */
  lemma AlphabetMembers(c: char)
    ensures c in AsciiUppercase <==> IsUpper(c)
    ensures c in AsciiLowercase <==> IsLower(c)
    ensures c in Digits <==> IsDigit(c)
    ensures c in Punctuation <==> IsPunctuation(c)
  {
    AlphabetsAreRanges();
    RangeMembers(c, 'A', 'Z');
    RangeMembers(c, 'a', 'z');
    RangeMembers(c, '0', '9');
    RangeMembers(c, '!', '/');
    RangeMembers(c, ':', '@');
    RangeMembers(c, '[', '`');
    RangeMembers(c, '{', '~');
  }

  /** A range lists its characters in strictly increasing order. */
  lemma RangeIncreasing(lo: char, hi: char)
    requires lo <= hi <= '~'
    ensures var r := AsciiRange(lo, hi);
            forall i, j :: 0 <= i < j < |r| ==> r[i] < r[j]
  {
  }

  lemma RangeMembers(c: char, lo: char, hi: char)
    requires lo <= hi <= '~'
    ensures c in AsciiRange(lo, hi) <==> lo <= c <= hi
  {
    var r := AsciiRange(lo, hi);
    if lo <= c <= hi {
      assert r[c as int - lo as int] == c;
    }
  }

  /** No character occurs twice in `s`. */
  predicate Distinct(s: string)
  {
    forall i, j :: 0 <= i < j < |s| ==> s[i] != s[j]
  }

  /** No alphabet repeats a character. */
  lemma AlphabetsDistinct()
    ensures Distinct(AsciiUppercase) && Distinct(AsciiLowercase)
    ensures Distinct(Digits) && Distinct(Punctuation)
  {
    AlphabetsAreRanges();
    var p := Punctuation;
    forall i, j | 0 <= i < j < |p| ensures p[i] < p[j] {
      var a, b, c, d := AsciiRange('!', '/'), AsciiRange(':', '@'), AsciiRange('[', '`'), AsciiRange('{', '~');
      assert p == a + b + c + d;
      assert forall k :: 0 <= k < |p| ==> (if k < 15 then p[k] == a[k] else if k < 22 then p[k] == b[k - 15]
                                           else if k < 28 then p[k] == c[k - 22] else p[k] == d[k - 28]);
    }
  }

  /** No character belongs to two alphabets. */
  lemma AlphabetsDisjoint()
    ensures forall c :: c in AsciiUppercase ==> c !in AsciiLowercase && c !in Digits && c !in Punctuation
    ensures forall c :: c in AsciiLowercase ==> c !in Digits && c !in Punctuation
    ensures forall c :: c in Digits ==> c !in Punctuation
  {
    forall c
      ensures c in AsciiUppercase ==> c !in AsciiLowercase && c !in Digits && c !in Punctuation
      ensures c in AsciiLowercase ==> c !in Digits && c !in Punctuation
      ensures c in Digits ==> c !in Punctuation
    {
      AlphabetMembers(c);
    }
  }
}
