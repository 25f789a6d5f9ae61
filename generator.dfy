/** Password generation: the character set chosen by four flags, and the
    draw of `length` characters from it.

    The random source is an oracle `pick`: the i-th call of `secrets.choice`
    returns `chars[pick(i) % |chars|]`. Nothing here speaks of distribution. */
module Generator {
  import opened Alphabets

  /** The character set for the enabled classes: the alphabets concatenated
      in the order uppercase, lowercase, digits, punctuation. */
  function Charset(upper: bool, lower: bool, digits: bool, symbols: bool): (chars: string)
    ensures |chars| == (if upper then 26 else 0) + (if lower then 26 else 0)
                       + (if digits then 10 else 0) + (if symbols then 32 else 0)
  {
    (if upper then AsciiUppercase else "") + (if lower then AsciiLowercase else "")
    + (if digits then Digits else "") + (if symbols then Punctuation else "")
  }

  /** `c` belongs to one of the enabled character classes. */
  predicate InEnabledClass(c: char, upper: bool, lower: bool, digits: bool, symbols: bool)
  {
    (upper && IsUpper(c)) || (lower && IsLower(c)) || (digits && IsDigit(c))
    || (symbols && IsPunctuation(c))
  }

  /** Number of iterations of `range(length)`: none when `length` is negative. */
  function Count(length: int): nat
  {
    if length < 0 then 0 else length
  }

  /** `password` is what drawing `Count(length)` characters from `chars`
      with the oracle `pick` produces. */
  ghost predicate DrawnFrom(password: string, chars: string, length: int, pick: nat -> nat)
    requires chars != []
  {
    |password| == Count(length)
    && forall i :: 0 <= i < |password| ==> password[i] == chars[pick(i) % |chars|]
  }

  /** The set is empty exactly when no flag is set. */
  lemma CharsetEmpty(upper: bool, lower: bool, digits: bool, symbols: bool)
    ensures Charset(upper, lower, digits, symbols) == [] <==> !upper && !lower && !digits && !symbols
  {
  }

  /** A character is in the set exactly when it is in an enabled class. */
  lemma CharsetMembers(c: char, upper: bool, lower: bool, digits: bool, symbols: bool)
    ensures c in Charset(upper, lower, digits, symbols) <==> InEnabledClass(c, upper, lower, digits, symbols)
  {
    AlphabetMembers(c);
  }

  /** The four classes are disjoint, so the set never repeats a character. */
  lemma CharsetDistinct(upper: bool, lower: bool, digits: bool, symbols: bool)
    ensures Distinct(Charset(upper, lower, digits, symbols))
  {
    AlphabetsDistinct();
    AlphabetsDisjoint();
    DistinctConcat4((if upper then AsciiUppercase else ""), (if lower then AsciiLowercase else ""),
                    (if digits then Digits else ""), (if symbols then Punctuation else ""));
  }

  lemma DistinctConcat4(u: string, l: string, d: string, p: string)
    requires Distinct(u) && Distinct(l) && Distinct(d) && Distinct(p)
    requires forall c :: c in u ==> c !in l && c !in d && c !in p
    requires forall c :: c in l ==> c !in d && c !in p
    requires forall c :: c in d ==> c !in p
    ensures Distinct(u + l + d + p)
  {
    DistinctConcat(u, l);
    DistinctConcat(u + l, d);
    DistinctConcat(u + l + d, p);
  }

  lemma DistinctConcat(s: string, t: string)
    requires Distinct(s) && Distinct(t)
    requires forall c :: c in s ==> c !in t
    ensures Distinct(s + t)
  {
    var st := s + t;
    forall i, j | 0 <= i < j < |st| ensures st[i] != st[j] {
      if i < |s| && |s| <= j {
        assert st[i] in s && st[j] == t[j - |s|];
      }
    }
  }

  /** Builds the character set by appending each enabled alphabet in turn. */
  method BuildCharset(upper: bool, lower: bool, digits: bool, symbols: bool) returns (chars: string)
    ensures chars == Charset(upper, lower, digits, symbols)
  {
    ghost var u, l, d, p := (if upper then AsciiUppercase else ""), (if lower then AsciiLowercase else ""),
                            (if digits then Digits else ""), (if symbols then Punctuation else "");
    chars := "";
    if upper {
      chars := chars + AsciiUppercase;
    }
    assert chars == u;
    if lower {
      chars := chars + AsciiLowercase;
    }
    assert chars == u + l;
    if digits {
      chars := chars + Digits;
    }
    assert chars == u + l + d;
    if symbols {
      chars := chars + Punctuation;
    }
  }

  /** Joins `length` independent draws from `chars`. */
  method DrawPassword(chars: string, length: int, pick: nat -> nat) returns (password: string)
    requires chars != []
    ensures DrawnFrom(password, chars, length, pick)
    ensures forall i :: 0 <= i < |password| ==> password[i] in chars
  {
    password := "";
    var i := 0;
    while i < length
      invariant i == |password| <= Count(length)
      invariant forall k :: 0 <= k < i ==> password[k] == chars[pick(k) % |chars|]
    {
      password := password + [chars[pick(i) % |chars|]];
      i := i + 1;
    }
  }

  /** Every character of a generated password lies in an enabled class. */
  lemma DrawnInEnabledClasses(password: string, length: int, pick: nat -> nat,
                               upper: bool, lower: bool, digits: bool, symbols: bool)
    requires Charset(upper, lower, digits, symbols) != []
    requires DrawnFrom(password, Charset(upper, lower, digits, symbols), length, pick)
    ensures |password| == Count(length)
    ensures forall i :: 0 <= i < |password| ==> InEnabledClass(password[i], upper, lower, digits, symbols)
  {
    var chars := Charset(upper, lower, digits, symbols);
    forall i | 0 <= i < |password|
      ensures InEnabledClass(password[i], upper, lower, digits, symbols)
    {
      assert password[i] == chars[pick(i) % |chars|];
      CharsetMembers(password[i], upper, lower, digits, symbols);
    }
  }

  /** With only digits enabled, every character is a decimal digit. */
  lemma DigitsOnly(password: string, length: int, pick: nat -> nat)
    requires DrawnFrom(password, Charset(false, false, true, false), length, pick)
    ensures forall i :: 0 <= i < |password| ==> '0' <= password[i] <= '9'
  {
    DrawnInEnabledClasses(password, length, pick, false, false, true, false);
  }
}
