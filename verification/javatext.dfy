/** The few java.lang.String operations the engine relies on, stated over
    Dafny strings.

    A Dafny `char` is a Unicode scalar value, which is what Java's regular
    expressions match one at a time. `String.length()` however counts UTF-16
    units, so a character outside the Basic Multilingual Plane has Java length 2;
    `JavaLength` models that. Case operations are modelled for ASCII letters
    only. */
module JavaText {

  /** Java's `\s` class: space, tab, newline, vertical tab, form feed, carriage return. */
  predicate IsWhitespace(c: char) {
    c == ' ' || c == '\t' || c == '\n' || c == '\U{B}' || c == '\U{C}' || c == '\r'
  }

  /** Characters `String.trim()` removes from both ends (code point at most U+0020). */
  predicate IsTrimmable(c: char) {
    c <= ' '
  }

  /** A character that one UTF-16 unit can hold. */
  predicate IsBmp(c: char) {
    c as int < 0x1_0000
  }

  /** `String.length()`: the number of UTF-16 units. */
  function JavaLength(s: string): (n: nat)
    ensures n >= |s|
    ensures n == |s| <==> forall i :: 0 <= i < |s| ==> IsBmp(s[i])
  {
    if |s| == 0 then 0 else (if IsBmp(s[0]) then 1 else 2) + JavaLength(s[1..])
  }

  /** A Java string of length one is exactly one BMP character. */
  lemma JavaLengthOne(s: string)
    ensures JavaLength(s) == 1 <==> |s| == 1 && IsBmp(s[0])
  {
    if |s| > 1 {
      assert JavaLength(s) >= |s|;
    }
  }

  /** The index of the first character at or after `i` that is not trimmable. */
  function LeadingPad(s: string, i: nat): (n: nat)
    requires i <= |s|
    ensures i <= n <= |s|
    ensures forall k :: i <= k < n ==> IsTrimmable(s[k])
    ensures n < |s| ==> !IsTrimmable(s[n])
    decreases |s| - i
  {
    if i < |s| && IsTrimmable(s[i]) then LeadingPad(s, i + 1) else i
  }

  /** The end of `s[lo..j]` once the trimmable characters at its end are cut off. */
  function TrailingCut(s: string, lo: nat, j: nat): (m: nat)
    requires lo <= j <= |s|
    ensures lo <= m <= j
    ensures forall k :: m <= k < j ==> IsTrimmable(s[k])
    ensures m > lo ==> !IsTrimmable(s[m - 1])
    decreases j
  {
    if j > lo && IsTrimmable(s[j - 1]) then TrailingCut(s, lo, j - 1) else j
  }

  /** `String.trim()`: the slice of `s` left after removing trimmable characters at both ends. */
  function Trim(s: string): (r: string)
    ensures var i := LeadingPad(s, 0);
            i + |r| <= |s| && r == s[i..i + |r|]
            && (forall k :: 0 <= k < i ==> IsTrimmable(s[k]))
            && (forall k :: i + |r| <= k < |s| ==> IsTrimmable(s[k]))
    ensures |r| > 0 ==> !IsTrimmable(r[0]) && !IsTrimmable(r[|r| - 1])
  {
    var i := LeadingPad(s, 0);
    var j := TrailingCut(s, i, |s|);
    assert j > i ==> s[i..j][0] == s[i] && s[i..j][j - i - 1] == s[j - 1];
    s[i..j]
  }

  /** Trimming twice changes nothing. */
  lemma TrimTwice(s: string)
    ensures Trim(Trim(s)) == Trim(s)
  {
    var t := Trim(s);
    if |t| > 0 {
      TrimUnpadded(t);
    }
  }

  /** A string that neither starts nor ends with a trimmable character is its own trim. */
  lemma TrimUnpadded(s: string)
    requires |s| > 0 && !IsTrimmable(s[0]) && !IsTrimmable(s[|s| - 1])
    ensures Trim(s) == s
  {
    assert LeadingPad(s, 0) == 0;
    assert TrailingCut(s, 0, |s|) == |s|;
  }

  function ToLowerAscii(c: char): char {
    if 'A' <= c <= 'Z' then (c as int + 32) as char else c
  }

  /** Lower-casing, for ASCII letters only. */
  function LowerAscii(s: string): (r: string)
    ensures |r| == |s|
    ensures forall i :: 0 <= i < |s| ==> r[i] == ToLowerAscii(s[i])
  {
    if |s| == 0 then [] else [ToLowerAscii(s[0])] + LowerAscii(s[1..])
  }

  /** Lower-casing twice changes nothing. */
  lemma LowerAsciiTwice(s: string)
    ensures LowerAscii(LowerAscii(s)) == LowerAscii(s)
  {
  }

  /** `String.equalsIgnoreCase`, for ASCII letters only. */
  predicate EqualsIgnoreCase(a: string, b: string) {
    LowerAscii(a) == LowerAscii(b)
  }

  predicate EndsWith(s: string, suffix: string) {
    |suffix| <= |s| && s[|s| - |suffix|..] == suffix
  }

  predicate StartsWith(s: string, prefix: string) {
    |prefix| <= |s| && s[..|prefix|] == prefix
  }

  /** `String.replace(",", "")`. */
  function RemoveCommas(s: string): (r: string)
    ensures |r| <= |s|
    ensures forall i :: 0 <= i < |r| ==> r[i] != ','
    ensures forall c :: c != ',' ==> (c in r <==> c in s)
  {
    if |s| == 0 then []
    else (if s[0] == ',' then [] else [s[0]]) + RemoveCommas(s[1..])
  }

  /** Every character but the comma is kept as often as it occurs. */
  lemma {:induction false} RemoveCommasMultiset(s: string)
    ensures multiset(RemoveCommas(s)) == multiset(s)[',' := 0]
  {
    if |s| > 0 {
      assert s == [s[0]] + s[1..];
      RemoveCommasMultiset(s[1..]);
      RemoveCommasCons(s);
    }
  }

  /** Commas are removed piece by piece, so the kept characters stay in order. */
  lemma {:induction false} RemoveCommasAppend(a: string, b: string)
    ensures RemoveCommas(a + b) == RemoveCommas(a) + RemoveCommas(b)
  {
    if |a| == 0 {
      assert a + b == b;
    } else {
      var here := if a[0] == ',' then [] else [a[0]];
      assert RemoveCommas(a + b) == here + RemoveCommas(a[1..] + b) by {
        RemoveCommasCons(a + b);
        assert (a + b)[0] == a[0] && (a + b)[1..] == a[1..] + b;
      }
      RemoveCommasAppend(a[1..], b);
      RemoveCommasCons(a);
    }
  }

  lemma RemoveCommasCons(s: string)
    requires |s| > 0
    ensures RemoveCommas(s) == (if s[0] == ',' then [] else [s[0]]) + RemoveCommas(s[1..])
  {
  }

  /** A string without commas is left alone. */
  lemma {:induction false} RemoveCommasNoComma(s: string)
    requires forall i :: 0 <= i < |s| ==> s[i] != ','
    ensures RemoveCommas(s) == s
  {
    if |s| > 0 {
      RemoveCommasNoComma(s[1..]);
    }
  }
}
