/** Character-level helpers the library service relies on: Python's
    `str.isdigit`, `str.strip`, `str.lower`, substring `in` and string
    ordering, restricted to ASCII. */
module Text {

  predicate IsAsciiDigit(c: char) {
    '0' <= c <= '9'
  }

  /** Whitespace as `str.strip()` removes it, within ASCII: tab, line feed,
      vertical tab, form feed, carriage return, the four separators 0x1C-0x1F,
      and the space. */
  predicate IsWhitespace(c: char) {
    c == ' ' || (9 <= c as int <= 13) || (28 <= c as int <= 31)
  }

  /** `s.isdigit()`: true exactly for a non-empty string of digits. */
  function IsDigitString(s: string): (r: bool)
    ensures r <==> |s| > 0 && forall i | 0 <= i < |s| :: IsAsciiDigit(s[i])
  {
    if |s| == 0 then false
    else if |s| == 1 then IsAsciiDigit(s[0])
    else IsAsciiDigit(s[0]) && IsDigitString(s[1..])
  }

  /** `s.lstrip()`: drops the leading whitespace and nothing else. */
  function StripLeft(s: string): (r: string)
    ensures |r| <= |s| && r == s[|s| - |r|..]
    ensures forall i | 0 <= i < |s| - |r| :: IsWhitespace(s[i])
    ensures r == [] || !IsWhitespace(r[0])
  {
    if |s| > 0 && IsWhitespace(s[0]) then StripLeft(s[1..]) else s
  }

  /** `s.rstrip()`: drops the trailing whitespace and nothing else. */
  function StripRight(s: string): (r: string)
    ensures |r| <= |s| && r == s[..|r|]
    ensures forall i | |r| <= i < |s| :: IsWhitespace(s[i])
    ensures r == [] || !IsWhitespace(r[|r| - 1])
  {
    if |s| > 0 && IsWhitespace(s[|s| - 1]) then StripRight(s[..|s| - 1]) else s
  }

  /** `s.strip()`. */
  function Strip(s: string): string {
    StripRight(StripLeft(s))
  }

  /** A string strips to nothing exactly when every character is whitespace;
      this is the "blank" test `not s.strip()`. */
  lemma {:induction false} StripEmptyIffBlank(s: string)
    ensures Strip(s) == [] <==> forall i | 0 <= i < |s| :: IsWhitespace(s[i])
  {
    var l := StripLeft(s);
    if Strip(s) != [] {
      var r := Strip(s);
      assert !IsWhitespace(r[0]);
      assert r[0] == l[0] == s[|s| - |l|];
    }
  }

  /** A non-blank stripped string starts and ends with a non-space character,
      and is a contiguous piece of the original. */
  lemma StripIsTrimmedSlice(s: string)
    ensures |Strip(s)| <= |s|
    ensures Strip(s) != [] ==> !IsWhitespace(Strip(s)[0]) && !IsWhitespace(Strip(s)[|Strip(s)| - 1])
    ensures exists k | 0 <= k <= |s| - |Strip(s)| :: Strip(s) == s[k..][..|Strip(s)|]
  {
    var l := StripLeft(s);
    var r := StripRight(l);
    if r != [] {
      assert r[0] == l[0];
    }
    var k := |s| - |l|;
    assert r == s[k..][..|r|];
  }

  /** A string with no whitespace at either end strips to itself. */
  lemma StripKeepsTrimmed(s: string)
    requires s != [] && !IsWhitespace(s[0]) && !IsWhitespace(s[|s| - 1])
    ensures Strip(s) == s
  {
  }

  function LowerChar(c: char): char {
    if IsAsciiUpper(c) then (c as int + 32) as char else c
  }

  predicate IsAsciiUpper(c: char) {
    'A' <= c <= 'Z'
  }

  /** `s.lower()`, ASCII letters only: each capital becomes its small
      letter, every other character is kept, and no capital is left. */
  function Lower(s: string): (r: string)
    ensures |r| == |s|
    ensures forall i | 0 <= i < |s| && IsAsciiUpper(s[i]) :: r[i] as int == s[i] as int + 32 && 'a' <= r[i] <= 'z'
    ensures forall i | 0 <= i < |s| && !IsAsciiUpper(s[i]) :: r[i] == s[i]
    ensures forall i | 0 <= i < |r| :: !IsAsciiUpper(r[i])
  {
    seq(|s|, i requires 0 <= i < |s| => LowerChar(s[i]))
  }

  /** Lower-casing twice is lower-casing once. */
  lemma LowerIsIdempotent(s: string)
    ensures Lower(Lower(s)) == Lower(s)
  {
    var l := Lower(s);
    assert forall i | 0 <= i < |l| :: Lower(l)[i] == l[i];
  }

  /** Two strings lower-case alike exactly when they agree position by
      position up to the case of ASCII letters. */
  lemma LowerEqualIffSameLetters(a: string, b: string)
    ensures Lower(a) == Lower(b) <==> |a| == |b| && forall i | 0 <= i < |a| :: LowerChar(a[i]) == LowerChar(b[i])
  {
    if |a| == |b| && forall i | 0 <= i < |a| :: LowerChar(a[i]) == LowerChar(b[i]) {
      assert forall i | 0 <= i < |a| :: Lower(a)[i] == Lower(b)[i];
    }
    if Lower(a) == Lower(b) {
      assert forall i | 0 <= i < |a| :: Lower(a)[i] == LowerChar(a[i]);
    }
  }

  /** `needle` appears in `hay` starting at position `i`. */
  predicate OccursAt(needle: string, hay: string, i: int) {
    0 <= i && i + |needle| <= |hay| && hay[i..i + |needle|] == needle
  }

  /** Python's `needle in hay` on strings. */
  function IsSubstring(needle: string, hay: string): (r: bool)
    ensures r <==> exists i :: OccursAt(needle, hay, i)
    decreases |hay|
  {
    if |needle| <= |hay| && hay[..|needle|] == needle then
      assert OccursAt(needle, hay, 0);
      true
    else if |needle| >= |hay| then
      assert forall i :: !OccursAt(needle, hay, i) by {
        forall i | OccursAt(needle, hay, i) ensures false {
        }
      }
      false
    else
      var rest := IsSubstring(needle, hay[1..]);
      assert forall i :: OccursAt(needle, hay, i + 1) <==> OccursAt(needle, hay[1..], i) by {
        forall i ensures OccursAt(needle, hay, i + 1) <==> OccursAt(needle, hay[1..], i) {
          if 0 <= i && i + 1 + |needle| <= |hay| {
            assert hay[i + 1..i + 1 + |needle|] == hay[1..][i..i + |needle|];
          }
        }
      }
      assert rest ==> exists i :: OccursAt(needle, hay, i) by {
        if rest {
          var k :| OccursAt(needle, hay[1..], k);
          assert OccursAt(needle, hay, k + 1);
        }
      }
      assert (exists i :: OccursAt(needle, hay, i)) ==> rest by {
        if exists i :: OccursAt(needle, hay, i) {
          var k :| OccursAt(needle, hay, k);
          assert k != 0;
          assert OccursAt(needle, hay[1..], k - 1);
        }
      }
      rest
  }

  /** Two strings each containing the other are equal: `a in b and b in a`
      holds exactly when `a == b`. */
  lemma MutualContainmentIsEquality(a: string, b: string)
    ensures IsSubstring(a, b) && IsSubstring(b, a) <==> a == b
  {
    if a == b {
      assert OccursAt(a, b, 0);
    } else if IsSubstring(a, b) && IsSubstring(b, a) {
      assert false;
    }
  }

  /** Python's `<=` on strings: code-point lexicographic order, a proper
      prefix ordered first. */
  predicate LexLessEq(a: string, b: string) {
    if |a| == 0 then true
    else if |b| == 0 then false
    else if a[0] != b[0] then a[0] < b[0]
    else LexLessEq(a[1..], b[1..])
  }

  lemma {:induction false} LexLessEqTotal(a: string, b: string)
    ensures LexLessEq(a, b) || LexLessEq(b, a)
  {
    if |a| > 0 && |b| > 0 && a[0] == b[0] {
      LexLessEqTotal(a[1..], b[1..]);
    }
  }

  lemma {:induction false} LexLessEqTransitive(a: string, b: string, c: string)
    requires LexLessEq(a, b) && LexLessEq(b, c)
    ensures LexLessEq(a, c)
  {
    if |a| > 0 && |b| > 0 && |c| > 0 && a[0] == b[0] == c[0] {
      LexLessEqTransitive(a[1..], b[1..], c[1..]);
    }
  }
}
