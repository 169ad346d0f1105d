/** ASCII case mapping as used by `str.lower()` and `str.title()`, and Python's string order. */
module Text {

  predicate IsUpper(c: char) { 'A' <= c <= 'Z' }

  predicate IsLower(c: char) { 'a' <= c <= 'z' }

  predicate IsLetter(c: char) { IsUpper(c) || IsLower(c) }

  function LowerChar(c: char): (r: char)
    ensures !IsUpper(r)
    ensures IsLetter(c) <==> IsLetter(r)
    ensures !IsUpper(c) ==> r == c
    ensures IsUpper(c) ==> IsLower(r)
  {
    if IsUpper(c) then (c as int + 32) as char else c
  }

  function UpperChar(c: char): (r: char)
    ensures !IsLower(r)
    ensures IsLetter(c) <==> IsLetter(r)
    ensures !IsLower(c) ==> r == c
    ensures IsLower(c) ==> IsUpper(r)
  {
    if IsLower(c) then (c as int - 32) as char else c
  }

  /** Lower-casing an upper-case letter and upper-casing the result gives the letter back, and conversely. */
  lemma CaseRoundTrip(c: char)
    ensures IsUpper(c) ==> UpperChar(LowerChar(c)) == c
    ensures IsLower(c) ==> LowerChar(UpperChar(c)) == c
  {
  }

  /** `s.lower()`: every upper-case letter replaced by its lower-case letter. */
  function Lower(s: string): (r: string)
    ensures |r| == |s|
    ensures forall i :: 0 <= i < |r| ==> !IsUpper(r[i])
    ensures forall i :: 0 <= i < |s| && !IsUpper(s[i]) ==> r[i] == s[i]
    ensures forall i :: 0 <= i < |s| && IsUpper(s[i]) ==> IsLower(r[i]) && UpperChar(r[i]) == s[i]
  {
    assert forall c :: IsUpper(c) ==> UpperChar(LowerChar(c)) == c by {
      forall c { CaseRoundTrip(c); }
    }
    seq(|s|, i requires 0 <= i < |s| => LowerChar(s[i]))
  }

  /** A string with no upper-case letter is its own lower-case form. */
  lemma LowerOfLowercase(s: string)
    requires forall i :: 0 <= i < |s| ==> !IsUpper(s[i])
    ensures Lower(s) == s
  {
  }

  /** Lower-casing twice is lower-casing once. */
  lemma LowerIdempotent(s: string)
    ensures Lower(Lower(s)) == Lower(s)
  {
    LowerOfLowercase(Lower(s));
  }

  /** The `i`-th character of `s.title()`: a letter is upper-cased exactly when it starts a word. */
  function TitleAt(s: string, i: nat): (c: char)
    requires i < |s|
    ensures IsLetter(c) <==> IsLetter(s[i])
    ensures !IsLetter(s[i]) ==> c == s[i]
    ensures IsLetter(s[i]) ==> LowerChar(c) == LowerChar(s[i])
    ensures IsLetter(s[i]) ==> (IsUpper(c) <==> i == 0 || !IsLetter(s[i - 1]))
  {
    CaseRoundTrip(s[i]);
    if i > 0 && IsLetter(s[i - 1]) then LowerChar(s[i]) else UpperChar(s[i])
  }

  /** `s.title()`: a letter that follows a letter is lower-cased, any other letter is upper-cased. */
  function Title(s: string): (r: string)
    ensures |r| == |s|
    ensures forall i :: 0 <= i < |s| ==> (IsLetter(r[i]) <==> IsLetter(s[i]))
    ensures forall i :: 0 <= i < |s| && !IsLetter(s[i]) ==> r[i] == s[i]
    ensures forall i :: 0 <= i < |s| && IsLetter(s[i]) ==>
              && LowerChar(r[i]) == LowerChar(s[i])
              && (IsUpper(r[i]) <==> i == 0 || !IsLetter(s[i - 1]))
  {
    seq(|s|, i requires 0 <= i < |s| => TitleAt(s, i))
  }

  /** `name` is the lower-case word `w` with its first letter upper-cased. */
  predicate Capitalises(w: string, name: string)
  {
    |w| > 0 && |name| == |w| && IsLower(w[0]) && name[0] == UpperChar(w[0])
    && forall i :: 1 <= i < |w| ==> IsLower(w[i]) && name[i] == w[i]
  }

  /** Title-casing a lower-case word upper-cases its first letter and keeps the rest. */
  lemma TitleOfLowerWord(w: string, name: string)
    requires Capitalises(w, name)
    ensures Title(w) == name
  {
    assert forall i :: 0 <= i < |w| ==> Title(w)[i] == name[i];
  }


  /** Python's `<` on strings: code-point order, a proper prefix first. */
  predicate StrLess(a: string, b: string)
  {
    if a == [] then b != []
    else if b == [] then false
    else a[0] < b[0] || (a[0] == b[0] && StrLess(a[1..], b[1..]))
  }

  lemma {:induction false} StrLessIrreflexive(a: string)
    ensures !StrLess(a, a)
  {
    if a != [] {
      StrLessIrreflexive(a[1..]);
    }
  }

  lemma {:induction false} StrLessTransitive(a: string, b: string, c: string)
    requires StrLess(a, b) && StrLess(b, c)
    ensures StrLess(a, c)
  {
    if a != [] && b != [] && c != [] && a[0] == b[0] == c[0] {
      StrLessTransitive(a[1..], b[1..], c[1..]);
    }
  }

  lemma {:induction false} StrLessTotal(a: string, b: string)
    requires a != b
    ensures StrLess(a, b) || StrLess(b, a)
  {
    if a != [] && b != [] && a[0] == b[0] {
      assert a == [a[0]] + a[1..] && b == [b[0]] + b[1..];
      StrLessTotal(a[1..], b[1..]);
    }
  }
}
