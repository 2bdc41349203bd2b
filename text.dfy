/**
 * The string operations the matcher relies on: Python's `str.strip()`,
 * `str.lower()`, the `in` operator on strings, and the decimal rendering
 * of a list index inside an f-string.
 */
module Text {

  /**
   * The characters for which Python's `str.isspace()` holds, which are the
   * ones `str.strip()` removes when given no argument.
   */
  predicate IsSpace(c: char) {
    ('\t' <= c <= '\r') || ('\U{1C}' <= c <= '\U{1F}') || c == ' ' || c == '\U{85}' || c == '\U{A0}'
    || c == '\U{1680}' || ('\U{2000}' <= c <= '\U{200A}') || c == '\U{2028}' || c == '\U{2029}'
    || c == '\U{202F}' || c == '\U{205F}' || c == '\U{3000}'
  }

  /** True when `s` has no removable whitespace at either end. */
  predicate IsStripped(s: string) {
    s == [] || (!IsSpace(s[0]) && !IsSpace(s[|s| - 1]))
  }

  /** `s.lstrip()`: the longest suffix of `s` that does not start with whitespace. */
  function StripStart(s: string): (r: string)
    ensures |r| <= |s| && r == s[|s| - |r|..]
    ensures forall k :: 0 <= k < |s| - |r| ==> IsSpace(s[k])
    ensures r != [] ==> !IsSpace(r[0])
  {
    if s != [] && IsSpace(s[0]) then StripStart(s[1..]) else s
  }

  /** `s.rstrip()`: the longest prefix of `s` that does not end with whitespace. */
  function StripEnd(s: string): (r: string)
    ensures |r| <= |s| && r == s[..|r|]
    ensures forall k :: |r| <= k < |s| ==> IsSpace(s[k])
    ensures r != [] ==> !IsSpace(r[|r| - 1])
  {
    if s != [] && IsSpace(s[|s| - 1]) then StripEnd(s[..|s| - 1]) else s
  }

  /** `s.strip()` */
  function Strip(s: string): string {
    StripEnd(StripStart(s))
  }

  /** Where the stripped text sits in the input: after what `lstrip` cut, up to what `rstrip` cut. */
  lemma StripSlice(s: string)
    ensures var i := |s| - |StripStart(s)|;
            i + |Strip(s)| <= |s| && Strip(s) == s[i..i + |Strip(s)|]
  {
    var t := StripStart(s);
    var r := StripEnd(t);
    var i := |s| - |t|;
    assert t == s[i..];
    assert r == t[..|r|];
    assert s[i..i + |r|] == t[..|r|];
  }

  /** What `rstrip` cut off the tail is whitespace in the input. */
  lemma StripTail(s: string)
    ensures forall k :: |s| - |StripStart(s)| + |Strip(s)| <= k < |s| ==> IsSpace(s[k])
  {
    var t := StripStart(s);
    var i := |s| - |t|;
    assert t == s[i..];
    forall k | i + |Strip(s)| <= k < |s| ensures IsSpace(s[k]) {
      assert s[k] == t[k - i];
    }
  }

  /** The stripped text neither starts nor ends with whitespace. */
  lemma StrippedEnds(s: string)
    ensures IsStripped(Strip(s))
  {
    var t := StripStart(s);
    var r := StripEnd(t);
    if r != [] {
      assert r[0] == t[0] && !IsSpace(t[0]);
      assert !IsSpace(r[|r| - 1]);
    }
  }

  /**
   * What `strip` does: it cuts a (possibly empty) run of whitespace off each
   * end, and what is left neither starts nor ends with whitespace.
   */
  lemma StripCharacterisation(s: string)
    ensures IsStripped(Strip(s))
    ensures exists i, j :: 0 <= i <= j <= |s| && Strip(s) == s[i..j]
              && (forall k :: 0 <= k < i ==> IsSpace(s[k]))
              && (forall k :: j <= k < |s| ==> IsSpace(s[k]))
  {
    StrippedEnds(s);
    var i := |s| - |StripStart(s)|;
    var j := i + |Strip(s)|;
    StripBounds(s, i, j);
  }

  /** The cut points of `strip`, as positions in the input. */
  lemma StripBounds(s: string, i: nat, j: nat)
    requires i == |s| - |StripStart(s)| && j == i + |Strip(s)|
    ensures 0 <= i <= j <= |s| && Strip(s) == s[i..j]
    ensures forall k :: 0 <= k < i ==> IsSpace(s[k])
    ensures forall k :: j <= k < |s| ==> IsSpace(s[k])
  {
    StripSlice(s);
    StripTail(s);
  }

  /** `strip` leaves nothing exactly when every character is whitespace. */
  lemma StripEmptyIff(s: string)
    ensures Strip(s) == [] <==> forall k :: 0 <= k < |s| ==> IsSpace(s[k])
  {
    var t := StripStart(s);
    if t != [] {
      assert !IsSpace(s[|s| - |t|]);
      assert t[0] == s[|s| - |t|];
      assert StripEnd(t)[0] == t[0];
    }
  }

  /** Stripping twice is stripping once. */
  lemma StripIdempotent(s: string)
    ensures Strip(Strip(s)) == Strip(s)
  {
    var r := Strip(s);
    StripCharacterisation(s);
    if r != [] {
      assert !IsSpace(r[0]) && !IsSpace(r[|r| - 1]);
      assert StripStart(r) == r;
      assert StripEnd(r) == r;
    }
  }

  /** `str.lower()` on one character, restricted to ASCII letters. */
  function LowerChar(c: char): char {
    if 'A' <= c <= 'Z' then (c as int + 32) as char else c
  }

  /** `s.lower()`, restricted to ASCII letters. */
  function Lower(s: string): (r: string)
    ensures |r| == |s|
  {
    seq(|s|, i requires 0 <= i < |s| => LowerChar(s[i]))
  }

  /**
   * Lower-casing turns each upper-case ASCII letter into the same letter in
   * lower case, leaves no upper-case ASCII letter, and changes nothing else.
   */
  lemma LowerSpec(s: string)
    ensures forall i :: 0 <= i < |s| && 'A' <= s[i] <= 'Z' ==>
              Lower(s)[i] == "abcdefghijklmnopqrstuvwxyz"[s[i] as int - 'A' as int]
    ensures forall i :: 0 <= i < |s| ==> !('A' <= Lower(s)[i] <= 'Z')
    ensures forall i :: 0 <= i < |s| && !('A' <= s[i] <= 'Z') ==> Lower(s)[i] == s[i]
    ensures Lower(Lower(s)) == Lower(s)
  {
    forall i | 0 <= i < |s| && 'A' <= s[i] <= 'Z'
      ensures Lower(s)[i] == "abcdefghijklmnopqrstuvwxyz"[s[i] as int - 'A' as int]
    {
      LetterAt(s[i]);
    }
  }

  /** The lower-case form of an upper-case ASCII letter is the letter at the same place in the alphabet. */
  lemma LetterAt(c: char)
    requires 'A' <= c <= 'Z'
    ensures LowerChar(c) == "abcdefghijklmnopqrstuvwxyz"[c as int - 'A' as int]
  {
    var alphabet := "abcdefghijklmnopqrstuvwxyz";
    assert forall k :: 0 <= k < 26 ==> alphabet[k] as int == 'a' as int + k;
  }

  /** Two characters are the same letter up to ASCII case, or simply equal. */
  predicate SameIgnoringCase(a: char, b: char) {
    a == b
    || ('A' <= a <= 'Z' && b as int == a as int + 32)
    || ('A' <= b <= 'Z' && a as int == b as int + 32)
  }

  /** Two texts are equal after lower-casing exactly when they agree character by character up to ASCII case. */
  lemma LowerEqualIff(s: string, t: string)
    ensures Lower(s) == Lower(t) <==>
              |s| == |t| && forall i :: 0 <= i < |s| ==> SameIgnoringCase(s[i], t[i])
  {
    if Lower(s) == Lower(t) {
      forall i | 0 <= i < |s| ensures SameIgnoringCase(s[i], t[i]) {
        assert LowerChar(s[i]) == Lower(s)[i] == Lower(t)[i] == LowerChar(t[i]);
      }
    }
    if |s| == |t| && forall i :: 0 <= i < |s| ==> SameIgnoringCase(s[i], t[i]) {
      forall i | 0 <= i < |s| ensures Lower(s)[i] == Lower(t)[i] {
        assert SameIgnoringCase(s[i], t[i]);
      }
    }
  }

  /** Python's `needle in hay` on strings. */
  predicate Contains(hay: string, needle: string) {
    exists i | 0 <= i <= |hay| :: needle <= hay[i..]
  }

  /** Containment is reflexive, holds of the empty needle, and between equal-length strings means equality. */
  lemma ContainsFacts(hay: string, needle: string)
    ensures Contains(hay, hay)
    ensures Contains(hay, [])
    ensures Contains(hay, needle) && |needle| >= |hay| ==> needle == hay
  {
    assert hay <= hay[0..];
    assert [] <= hay[0..];
  }

  function DigitChar(d: nat): char
    requires d < 10
  {
    ('0' as int + d) as char
  }

  /** Decimal digits of a natural number, most significant first, as `f"{i}"` prints it. */
  function NatToString(n: nat): (r: string)
    ensures |r| >= 1
    ensures forall k :: 0 <= k < |r| ==> '0' <= r[k] <= '9'
    ensures r[0] == '0' ==> n == 0 && r == "0"
  {
    if n < 10 then [DigitChar(n)] else NatToString(n / 10) + [DigitChar(n % 10)]
  }

  /** The number a string of decimal digits denotes. */
  function DecimalValue(s: string): nat
    requires forall k :: 0 <= k < |s| ==> '0' <= s[k] <= '9'
  {
    if s == [] then 0 else 10 * DecimalValue(s[..|s| - 1]) + (s[|s| - 1] as int - '0' as int)
  }

  /** Reading back the printed digits gives the number: the rendering loses nothing. */
  lemma {:induction false} DecimalRoundTrip(n: nat)
    ensures DecimalValue(NatToString(n)) == n
  {
    var r := NatToString(n);
    if n >= 10 {
      var front := NatToString(n / 10);
      DecimalRoundTrip(n / 10);
      assert r == front + [DigitChar(n % 10)];
      assert r[..|r| - 1] == front;
      assert r[|r| - 1] as int - '0' as int == n % 10;
    }
  }
}
