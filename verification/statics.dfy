/** `Statics`: boolean parsing and the two regular-expression scans the
    transcriber performs on every token.

    The general `getAllRegexMatches(input, regex)` is modelled only for the two
    character classes it is called with: maximal runs of `[\w&&[^_]]`, and single
    characters of `[\W_]`. Without the UNICODE_CHARACTER_CLASS flag `\w` is
    `[A-Za-z0-9_]`, so the word characters are exactly the ASCII letters and
    digits; `_`, every non-ASCII letter and every dash are non-word. */
module Statics {
  import opened Wrappers
  import opened JavaText

  /** `parseBoolean`: "1" or any letter-case spelling of "true", after trimming. */
  function ParseBoolean(s: string): (r: bool)
    ensures r <==> (Trim(s) == "1" || LowerAscii(Trim(s)) == "true")
    ensures r ==> |Trim(s)| == 1 || |Trim(s)| == 4
  {
    var t := Trim(s);
    t == "1" || EqualsIgnoreCase(t, "true")
  }

  /** Surrounding whitespace never changes the parsed value. */
  lemma ParseBooleanIgnoresPadding(s: string)
    ensures ParseBoolean(Trim(s)) == ParseBoolean(s)
  {
    TrimTwice(s);
  }

  /** `[\w&&[^_]]`: an ASCII letter or digit. */
  predicate IsWordChar(c: char) {
    'A' <= c <= 'Z' || 'a' <= c <= 'z' || '0' <= c <= '9'
  }

  /** Java's `\d`: an ASCII digit. */
  predicate IsDigit(c: char) {
    '0' <= c <= '9'
  }

  predicate HasWordChar(s: string) {
    exists k :: 0 <= k < |s| && IsWordChar(s[k])
  }

  predicate AllNonWord(s: string, p: nat, q: nat)
    requires p <= q <= |s|
  {
    forall k :: p <= k < q ==> !IsWordChar(s[k])
  }

  /** A `MatchResult`: the half-open character range [start, end) of one match. */
  datatype Match = Match(start: nat, end: nat)

  /** Non-empty matches inside an input of length `n`, left to right, not overlapping. */
  predicate Ordered(ms: seq<Match>, n: nat) {
    && (forall i :: 0 <= i < |ms| ==> ms[i].start < ms[i].end <= n)
    && (forall i, j :: 0 <= i < j < |ms| ==> ms[i].end <= ms[j].start)
  }

  /** `m` is a maximal run of word characters of `s`. */
  predicate IsWordRun(s: string, m: Match) {
    && m.start < m.end <= |s|
    && (forall k :: m.start <= k < m.end ==> IsWordChar(s[k]))
    && (m.start == 0 || !IsWordChar(s[m.start - 1]))
    && (m.end == |s| || !IsWordChar(s[m.end]))
  }

  /** The end of the run of word characters starting at `p`. */
  function RunEnd(s: string, p: nat): (e: nat)
    requires p <= |s|
    ensures p <= e <= |s|
    ensures forall k :: p <= k < e ==> IsWordChar(s[k])
    ensures e == |s| || !IsWordChar(s[e])
    decreases |s| - p
  {
    if p < |s| && IsWordChar(s[p]) then RunEnd(s, p + 1) else p
  }

  /** Prepending a match that ends before every later one keeps a list ordered. */
  lemma ConsOrdered(m: Match, rest: seq<Match>, n: nat)
    requires m.start < m.end <= n
    requires Ordered(rest, n)
    requires forall i :: 0 <= i < |rest| ==> m.end <= rest[i].start
    ensures Ordered([m] + rest, n)
  {
    var r := [m] + rest;
    forall i, j | 0 <= i < j < |r|
      ensures r[i].end <= r[j].start
    {
      if i > 0 {
        assert r[i] == rest[i - 1] && r[j] == rest[j - 1];
      } else {
        assert r[j] == rest[j - 1];
      }
    }
  }

  /** The matches of `[\w&&[^_]]+` found by scanning `s` from position `p`. */
  function WordRunsFrom(s: string, p: nat): (r: seq<Match>)
    requires p <= |s|
    requires p == 0 || !IsWordChar(s[p - 1])
    ensures forall i :: 0 <= i < |r| ==> p <= r[i].start < r[i].end <= |s|
    decreases |s| - p
  {
    if p == |s| then []
    else if !IsWordChar(s[p]) then WordRunsFrom(s, p + 1)
    else
      var e := RunEnd(s, p);
      if e == |s| then [Match(p, e)]
      else
        var rest := WordRunsFrom(s, e + 1);
        var r := [Match(p, e)] + rest;
        assert forall i :: 1 <= i < |r| ==> r[i] == rest[i - 1];
        r
  }

  /** Each match of the scan is a maximal word run. */
  lemma {:induction false} WordRunsFromMaximal(s: string, p: nat, i: nat)
    requires p <= |s|
    requires p == 0 || !IsWordChar(s[p - 1])
    requires i < |WordRunsFrom(s, p)|
    ensures IsWordRun(s, WordRunsFrom(s, p)[i])
    decreases |s| - p, 1
  {
    if !IsWordChar(s[p]) {
      assert WordRunsFrom(s, p) == WordRunsFrom(s, p + 1);
      WordRunsFromMaximal(s, p + 1, i);
    } else if i == 0 || RunEnd(s, p) == |s| {
      FirstRun(s, p);
    } else {
      WordRunsFromMaximalAfterRun(s, p, RunEnd(s, p), i);
    }
  }

  /** A scan that starts at a word character finds the run from there first. */
  lemma FirstRun(s: string, p: nat)
    requires p < |s| && (p == 0 || !IsWordChar(s[p - 1])) && IsWordChar(s[p])
    ensures WordRunsFrom(s, p)[0] == Match(p, RunEnd(s, p))
    ensures IsWordRun(s, Match(p, RunEnd(s, p)))
    ensures RunEnd(s, p) == |s| ==> |WordRunsFrom(s, p)| == 1
  {
  }

  /** The case of `WordRunsFromMaximal` for a later match after a run from `p` to `e`. */
  lemma {:induction false} WordRunsFromMaximalAfterRun(s: string, p: nat, e: nat, i: nat)
    requires p < |s| && (p == 0 || !IsWordChar(s[p - 1])) && IsWordChar(s[p])
    requires e == RunEnd(s, p) && e < |s|
    requires 0 < i < |WordRunsFrom(s, p)|
    ensures IsWordRun(s, WordRunsFrom(s, p)[i])
    decreases |s| - p, 0
  {
    RunThenRestAt(s, p, e, i);
    WordRunsFromMaximal(s, e + 1, i - 1);
  }

  /** A later match of the scan past a run from `p` to `e` is a match of the scan
      after `e`. */
  lemma RunThenRestAt(s: string, p: nat, e: nat, i: nat)
    requires p < |s| && (p == 0 || !IsWordChar(s[p - 1])) && IsWordChar(s[p])
    requires e == RunEnd(s, p) && e < |s|
    requires 0 < i < |WordRunsFrom(s, p)|
    ensures i - 1 < |WordRunsFrom(s, e + 1)|
    ensures WordRunsFrom(s, p)[i] == WordRunsFrom(s, e + 1)[i - 1]
  {
    RunThenRest(s, p, e);
    ConsAt(WordRunsFrom(s, p), Match(p, e), WordRunsFrom(s, e + 1), i);
  }

  /** The matches of the scan are ordered and do not overlap. */
  lemma {:induction false} WordRunsFromOrdered(s: string, p: nat)
    requires p <= |s|
    requires p == 0 || !IsWordChar(s[p - 1])
    ensures Ordered(WordRunsFrom(s, p), |s|)
    decreases |s| - p
  {
    if p == |s| {
    } else if !IsWordChar(s[p]) {
      WordRunsFromOrdered(s, p + 1);
    } else {
      var e := RunEnd(s, p);
      if e < |s| {
        WordRunsFromOrdered(s, e + 1);
        ConsOrdered(Match(p, e), WordRunsFrom(s, e + 1), |s|);
      }
    }
  }

  /** The scan finds nothing exactly when no word character follows `p`. */
  lemma {:induction false} WordRunsFromEmpty(s: string, p: nat)
    requires p <= |s|
    requires p == 0 || !IsWordChar(s[p - 1])
    ensures WordRunsFrom(s, p) == [] <==> AllNonWord(s, p, |s|)
    decreases |s| - p
  {
    if p < |s| && !IsWordChar(s[p]) {
      WordRunsFromEmpty(s, p + 1);
    }
  }

  /** Nothing before the first match is a word character. */
  lemma {:induction false} WordRunsFromFirst(s: string, p: nat)
    requires p <= |s|
    requires p == 0 || !IsWordChar(s[p - 1])
    requires WordRunsFrom(s, p) != []
    ensures AllNonWord(s, p, WordRunsFrom(s, p)[0].start)
    decreases |s| - p
  {
    if !IsWordChar(s[p]) {
      WordRunsFromFirst(s, p + 1);
    }
  }

  /** Nothing after the last match is a word character. */
  lemma {:induction false} WordRunsFromLast(s: string, p: nat)
    requires p <= |s|
    requires p == 0 || !IsWordChar(s[p - 1])
    requires WordRunsFrom(s, p) != []
    ensures var r := WordRunsFrom(s, p); AllNonWord(s, r[|r| - 1].end, |s|)
    decreases |s| - p, 1, 0
  {
    if !IsWordChar(s[p]) {
      assert WordRunsFrom(s, p) == WordRunsFrom(s, p + 1);
      WordRunsFromLast(s, p + 1);
    } else if RunEnd(s, p) == |s| {
      assert WordRunsFrom(s, p) == [Match(p, |s|)];
    } else {
      WordRunsFromLastAfterRun(s, p, RunEnd(s, p));
    }
  }

  /** The case of `WordRunsFromLast` where a run starts at `p` and ends before the end. */
  lemma {:induction false} WordRunsFromLastAfterRun(s: string, p: nat, e: nat)
    requires p < |s| && (p == 0 || !IsWordChar(s[p - 1])) && IsWordChar(s[p])
    requires e == RunEnd(s, p) && e < |s|
    ensures var r := WordRunsFrom(s, p); |r| > 0 && AllNonWord(s, r[|r| - 1].end, |s|)
    decreases |s| - p, 0, 0
  {
    RunThenRest(s, p, e);
    RestClear(s, e);
    LastEndClear(s, Match(p, e), WordRunsFrom(s, e + 1), WordRunsFrom(s, p));
  }

  /** After a non-word character at `e`, nothing past the last match of the scan
      (or past `e` when there is none) is a word character. */
  lemma {:induction false} RestClear(s: string, e: nat)
    requires e < |s| && !IsWordChar(s[e])
    ensures var rest := WordRunsFrom(s, e + 1);
            && (rest == [] ==> AllNonWord(s, e + 1, |s|))
            && (rest != [] ==> rest[|rest| - 1].end <= |s| && AllNonWord(s, rest[|rest| - 1].end, |s|))
    decreases |s| - e, 0, 1
  {
    WordRunsFromEmpty(s, e + 1);
    if WordRunsFrom(s, e + 1) != [] {
      WordRunsFromLast(s, e + 1);
    }
  }

  /** Unfolds the scan at a run from `p` to `e` that ends before the end. */
  lemma RunThenRest(s: string, p: nat, e: nat)
    requires p < |s| && (p == 0 || !IsWordChar(s[p - 1])) && IsWordChar(s[p])
    requires e == RunEnd(s, p) && e < |s|
    ensures WordRunsFrom(s, p) == [Match(p, e)] + WordRunsFrom(s, e + 1)
  {
  }

  /** A match followed by a non-word character, then by matches after which
      nothing is a word character: nothing after the last of them is one either. */
  lemma LastEndClear(s: string, m: Match, rest: seq<Match>, r: seq<Match>)
    requires r == [m] + rest
    requires m.end < |s| && !IsWordChar(s[m.end])
    requires rest == [] ==> AllNonWord(s, m.end + 1, |s|)
    requires rest != [] ==> rest[|rest| - 1].end <= |s| && AllNonWord(s, rest[|rest| - 1].end, |s|)
    ensures |r| > 0 && r[|r| - 1].end <= |s| && AllNonWord(s, r[|r| - 1].end, |s|)
  {
    if rest != [] {
      assert r[|r| - 1] == rest[|rest| - 1];
    }
  }

  /** `getAllRegexMatches(s, "[\\w&&[^_]]+")`. */
  function WordRuns(s: string): seq<Match> {
    WordRunsFrom(s, 0)
  }

  /** The word-run matches are maximal word runs, left to right. */
  lemma WordRunsShape(s: string)
    ensures var r := WordRuns(s);
            Ordered(r, |s|) && forall i :: 0 <= i < |r| ==> IsWordRun(s, r[i])
  {
    var r := WordRuns(s);
    WordRunsFromOrdered(s, 0);
    forall i | 0 <= i < |r|
      ensures IsWordRun(s, r[i])
    {
      WordRunsFromMaximal(s, 0, i);
    }
  }

  /** There is a word run exactly when there is a word character, and none lies
      before the first run or after the last. */
  lemma WordRunsEnds(s: string)
    ensures var r := WordRuns(s);
            && (r == [] <==> !HasWordChar(s))
            && (r != [] ==> AllNonWord(s, 0, r[0].start) && AllNonWord(s, r[|r| - 1].end, |s|))
  {
    WordRunsFromEmpty(s, 0);
    if WordRunsFrom(s, 0) != [] {
      WordRunsFromFirst(s, 0);
      WordRunsFromLast(s, 0);
    }
  }

  /** The matches of `[\W_]` inside s[p..q]: one single-character match per non-word character. */
  function NonWordIn(s: string, p: nat, q: nat): seq<Match>
    requires p <= q <= |s|
    decreases q - p
  {
    if p == q then []
    else NonWordIn(s, p, q - 1) + (if IsWordChar(s[q - 1]) then [] else [Match(q - 1, q)])
  }

  /** Every match of the scan of s[p..q] is one non-word character inside the range. */
  lemma {:induction false} NonWordInElements(s: string, p: nat, q: nat)
    requires p <= q <= |s|
    ensures forall i :: 0 <= i < |NonWordIn(s, p, q)| ==>
              && p <= NonWordIn(s, p, q)[i].start
              && NonWordIn(s, p, q)[i].end == NonWordIn(s, p, q)[i].start + 1 <= q
              && !IsWordChar(s[NonWordIn(s, p, q)[i].start])
    decreases q - p
  {
    if p < q {
      NonWordInElements(s, p, q - 1);
      var a := NonWordIn(s, p, q - 1);
      var last := if IsWordChar(s[q - 1]) then [] else [Match(q - 1, q)];
      var r := NonWordIn(s, p, q);
      assert r == a + last;
      forall i | 0 <= i < |r|
        ensures p <= r[i].start && r[i].end == r[i].start + 1 <= q && !IsWordChar(s[r[i].start])
      {
        if i < |a| {
          assert r[i] == a[i];
        } else {
          assert r[i] == Match(q - 1, q);
        }
      }
    }
  }

  /** The scan of s[p..q] lists its matches left to right. */
  lemma {:induction false} NonWordInOrdered(s: string, p: nat, q: nat)
    requires p <= q <= |s|
    ensures Ordered(NonWordIn(s, p, q), |s|)
    decreases q - p
  {
    if p < q {
      NonWordInOrdered(s, p, q - 1);
      NonWordInElements(s, p, q - 1);
      var a := NonWordIn(s, p, q - 1);
      var last := if IsWordChar(s[q - 1]) then [] else [Match(q - 1, q)];
      var r := NonWordIn(s, p, q);
      assert r == a + last;
      forall i, j | 0 <= i < j < |r|
        ensures r[i].end <= r[j].start
      {
        assert r[i] == a[i];
        if j < |a| {
          assert r[j] == a[j];
        } else {
          assert r[j] == Match(q - 1, q);
        }
      }
      forall i | 0 <= i < |r|
        ensures r[i].start < r[i].end <= |s|
      {
        if i < |a| {
          assert r[i] == a[i];
        } else {
          assert r[i] == Match(q - 1, q);
        }
      }
    }
  }

  /** The scan of s[p..q] reports every non-word character in that range. */
  lemma {:induction false} NonWordInComplete(s: string, p: nat, q: nat)
    requires p <= q <= |s|
    ensures forall k :: p <= k < q && !IsWordChar(s[k]) ==> Match(k, k + 1) in NonWordIn(s, p, q)
    decreases q - p
  {
    if p < q {
      NonWordInComplete(s, p, q - 1);
      var last := if IsWordChar(s[q - 1]) then [] else [Match(q - 1, q)];
      assert NonWordIn(s, p, q) == NonWordIn(s, p, q - 1) + last;
    }
  }

  /** `getAllRegexMatches(s, "[\\W_]")`. */
  function NonWordChars(s: string): seq<Match> {
    NonWordIn(s, 0, |s|)
  }

  /** The non-word matches are exactly the non-word characters, one match each,
      left to right. */
  lemma NonWordCharsFacts(s: string)
    ensures var r := NonWordChars(s);
            && Ordered(r, |s|)
            && (forall i :: 0 <= i < |r| ==> r[i].end == r[i].start + 1 && !IsWordChar(s[r[i].start]))
            && (forall k :: 0 <= k < |s| && !IsWordChar(s[k]) ==> Match(k, k + 1) in r)
  {
    NonWordInOrdered(s, 0, |s|);
    NonWordInElements(s, 0, |s|);
    NonWordInComplete(s, 0, |s|);
  }

  /** Scanning a range in two pieces gives the concatenation of the two scans. */
  lemma {:induction false} NonWordSplit(s: string, p: nat, q: nat, r: nat)
    requires p <= q <= r <= |s|
    ensures NonWordIn(s, p, r) == NonWordIn(s, p, q) + NonWordIn(s, q, r)
    decreases r - q
  {
    if q < r {
      NonWordSplit(s, p, q, r - 1);
      var last := if IsWordChar(s[r - 1]) then [] else [Match(r - 1, r)];
      assert NonWordIn(s, p, r) == NonWordIn(s, p, r - 1) + last;
      assert NonWordIn(s, q, r) == NonWordIn(s, q, r - 1) + last;
      assert NonWordIn(s, p, q) + (NonWordIn(s, q, r - 1) + last)
          == (NonWordIn(s, p, q) + NonWordIn(s, q, r - 1)) + last;
    }
  }

  /** Over a stretch of non-word characters the scan yields every position in turn. */
  lemma {:induction false} NonWordStretch(s: string, p: nat, q: nat)
    requires p <= q <= |s|
    requires AllNonWord(s, p, q)
    ensures |NonWordIn(s, p, q)| == q - p
    ensures forall k :: 0 <= k < q - p ==> NonWordIn(s, p, q)[k] == Match(p + k, p + k + 1)
    decreases q - p
  {
    if p < q {
      NonWordStretch(s, p, q - 1);
    }
  }

  /** Over a stretch of word characters the scan yields nothing. */
  lemma {:induction false} NonWordNone(s: string, p: nat, q: nat)
    requires p <= q <= |s|
    requires forall k :: p <= k < q ==> IsWordChar(s[k])
    ensures NonWordIn(s, p, q) == []
    decreases q - p
  {
    if p < q {
      NonWordNone(s, p, q - 1);
    }
  }

  /** A string without word characters yields one match per character. */
  lemma NonWordCharsOfNonWordString(s: string)
    requires !HasWordChar(s)
    ensures |NonWordChars(s)| == |s|
    ensures forall k :: 0 <= k < |s| ==> NonWordChars(s)[k] == Match(k, k + 1)
  {
    NonWordStretch(s, 0, |s|);
  }
}
