/** How `transcribe` cuts its input: the sentence into whitespace-separated
    tokens, and every token that has a word character into the leading
    non-word characters, the core from the first to the last word character,
    and the trailing non-word characters. */
module Dissection {
  import opened Wrappers
  import opened JavaText
  import opened Statics

  // ---------------------------------------------------------------------------
  // Tokens

  /** The string without its leading whitespace run. */
  function DropWhitespace(s: string): (r: string)
    ensures |r| <= |s| && r == s[|s| - |r|..]
    ensures forall k :: 0 <= k < |s| - |r| ==> IsWhitespace(s[k])
    ensures |r| > 0 ==> !IsWhitespace(r[0])
  {
    if |s| > 0 && IsWhitespace(s[0]) then DropWhitespace(s[1..]) else s
  }

  /** `replaceAll("\\s{2,}", " ")`: every run of two or more whitespace characters
      becomes one space; a single whitespace character is kept as it is. */
  function Collapse(s: string): (r: string)
    decreases |s|
  {
    if |s| == 0 then ""
    else if |s| >= 2 && IsWhitespace(s[0]) && IsWhitespace(s[1]) then " " + Collapse(DropWhitespace(s))
    else [s[0]] + Collapse(s[1..])
  }

  /** The non-whitespace characters of a string, in order. */
  function RemoveWhitespace(s: string): (r: string)
    ensures forall k :: 0 <= k < |r| ==> !IsWhitespace(r[k])
  {
    if |s| == 0 then ""
    else (if IsWhitespace(s[0]) then "" else [s[0]]) + RemoveWhitespace(s[1..])
  }

  lemma {:induction false} RemoveWhitespaceAppend(a: string, b: string)
    ensures RemoveWhitespace(a + b) == RemoveWhitespace(a) + RemoveWhitespace(b)
    decreases |a|
  {
    if |a| == 0 {
      assert a + b == b;
    } else {
      assert (a + b)[0] == a[0];
      assert (a + b)[1..] == a[1..] + b;
      RemoveWhitespaceAppend(a[1..], b);
    }
  }

  lemma {:induction false} RemoveWhitespaceOfRun(s: string)
    ensures RemoveWhitespace(DropWhitespace(s)) == RemoveWhitespace(s)
    decreases |s|
  {
    if |s| > 0 && IsWhitespace(s[0]) {
      RemoveWhitespaceOfRun(s[1..]);
    }
  }

  /** No two whitespace characters in a row. */
  predicate NoDoubleSpace(s: string) {
    forall k :: 0 <= k < |s| - 1 ==> !(IsWhitespace(s[k]) && IsWhitespace(s[k + 1]))
  }

  /** No whitespace at either end and no two whitespace characters in a row. */
  predicate WellSpaced(s: string) {
    && (|s| > 0 ==> !IsWhitespace(s[0]) && !IsWhitespace(s[|s| - 1]))
    && NoDoubleSpace(s)
  }

  /** Collapsing keeps the non-whitespace characters in order. */
  lemma {:induction false} CollapseKeeps(s: string)
    ensures RemoveWhitespace(Collapse(s)) == RemoveWhitespace(s)
    decreases |s|
  {
    if |s| == 0 {
    } else if |s| >= 2 && IsWhitespace(s[0]) && IsWhitespace(s[1]) {
      var d := DropWhitespace(s);
      CollapseKeeps(d);
      RemoveWhitespaceOfRun(s);
      RemoveWhitespaceAppend(" ", Collapse(d));
    } else {
      CollapseKeeps(s[1..]);
      RemoveWhitespaceAppend([s[0]], Collapse(s[1..]));
      assert s == [s[0]] + s[1..];
    }
  }

  /** One step of `Collapse`: the first output character `h` and the shorter
      suffix `rest` collapsed after it. */
  lemma CollapseStep(s: string) returns (h: char, rest: string)
    requires |s| > 0
    ensures Collapse(s) == [h] + Collapse(rest)
    ensures |rest| < |s| && rest == s[|s| - |rest|..]
    ensures IsWhitespace(h) <==> IsWhitespace(s[0])
    ensures IsWhitespace(h) && |rest| > 0 ==> !IsWhitespace(rest[0])
    ensures |rest| == 0 ==> (IsWhitespace(h) <==> IsWhitespace(s[|s| - 1]))
  {
    if |s| >= 2 && IsWhitespace(s[0]) && IsWhitespace(s[1]) {
      h, rest := ' ', DropWhitespace(s);
      if |rest| == 0 {
        assert IsWhitespace(s[|s| - 1]);
      }
    } else {
      h, rest := s[0], s[1..];
    }
  }

  /** A character in front of a string without double whitespace adds none when
      it is not whitespace or the string does not start with whitespace. */
  lemma ConsNoDoubleSpace(h: char, t: string)
    requires NoDoubleSpace(t)
    requires IsWhitespace(h) && |t| > 0 ==> !IsWhitespace(t[0])
    ensures NoDoubleSpace([h] + t)
  {
    var c := [h] + t;
    forall k | 0 <= k < |c| - 1
      ensures !(IsWhitespace(c[k]) && IsWhitespace(c[k + 1]))
    {
      assert c[k + 1] == t[k];
      if k > 0 {
        assert c[k] == t[k - 1];
      }
    }
  }

  /** Collapsing keeps a non-whitespace first and last character, and turns a
      leading whitespace run into whitespace. */
  lemma {:induction false} CollapseEnds(s: string)
    ensures |Collapse(s)| > 0 <==> |s| > 0
    ensures |s| > 0 ==> (IsWhitespace(Collapse(s)[0]) <==> IsWhitespace(s[0]))
    ensures |s| > 0 && !IsWhitespace(s[|s| - 1]) ==> !IsWhitespace(Collapse(s)[|Collapse(s)| - 1])
    decreases |s|
  {
    if |s| > 0 {
      var h, rest := CollapseStep(s);
      CollapseEnds(rest);
      var c := Collapse(rest);
      assert ([h] + c)[0] == h;
      if |rest| > 0 {
        assert rest[|rest| - 1] == s[|s| - 1];
        assert ([h] + c)[|c|] == c[|c| - 1];
      }
    }
  }

  /** A collapsed string has no two whitespace characters in a row. */
  lemma {:induction false} CollapseNoDoubles(s: string)
    ensures NoDoubleSpace(Collapse(s))
    decreases |s|
  {
    if |s| > 0 {
      var h, rest := CollapseStep(s);
      CollapseNoDoubles(rest);
      CollapseEnds(rest);
      ConsNoDoubleSpace(h, Collapse(rest));
    }
  }

  /** The pieces between single whitespace characters, empty pieces included. */
  function RawSplit(s: string): (r: seq<string>)
    ensures |r| >= 1
    decreases |s|
  {
    match FindFirst(s, IsWhitespace)
    case None => [s]
    case Some(k) => [s[..k]] + RawSplit(s[k + 1..])
  }

  /** The sequence without its trailing empty strings. */
  function DropTrailingEmpty(ps: seq<string>): (r: seq<string>)
    ensures |r| <= |ps| && r == ps[..|r|]
    ensures |r| > 0 ==> r[|r| - 1] != ""
    ensures forall i :: |r| <= i < |ps| ==> ps[i] == ""
  {
    if |ps| == 0 then []
    else if ps[|ps| - 1] == "" then DropTrailingEmpty(ps[..|ps| - 1])
    else ps
  }

  predicate NoWhitespace(s: string) {
    forall k :: 0 <= k < |s| ==> !IsWhitespace(s[k])
  }

  /** Every piece is non-empty and free of whitespace. */
  predicate ProperTokens(ps: seq<string>) {
    forall i :: 0 <= i < |ps| ==> ps[i] != "" && NoWhitespace(ps[i])
  }

  /** `split("\\s")`: a string without whitespace is its own only piece; otherwise
      the pieces between whitespace characters, trailing empty pieces dropped. */
  function SplitWhitespace(s: string): seq<string> {
    if NoWhitespace(s) then [s]
    else DropTrailingEmpty(RawSplit(s))
  }

  function Concat(ps: seq<string>): string {
    if |ps| == 0 then "" else ps[0] + Concat(ps[1..])
  }

  /** The whitespace characters of a string, in order. */
  function Separators(s: string): (r: string)
    ensures forall k :: 0 <= k < |r| ==> IsWhitespace(r[k])
  {
    if |s| == 0 then ""
    else (if IsWhitespace(s[0]) then [s[0]] else "") + Separators(s[1..])
  }

  /** The pieces joined, with separator i between piece i and piece i + 1. */
  function Interleave(ps: seq<string>, seps: string): string
    requires |ps| == |seps| + 1
  {
    if |seps| == 0 then ps[0] else ps[0] + [seps[0]] + Interleave(ps[1..], seps[1..])
  }

  /** The tokens of an input sentence: trimmed, whitespace runs collapsed, split. */
  function Tokenise(input: string): seq<string> {
    SplitWhitespace(Collapse(Trim(input)))
  }

  lemma RemoveWhitespaceNone(s: string)
    requires NoWhitespace(s)
    ensures RemoveWhitespace(s) == s
    decreases |s|
  {
    if |s| > 0 {
      RemoveWhitespaceNone(s[1..]);
    }
  }

  /** What follows the first whitespace character of a well-spaced string is
      well spaced, and that character sits strictly inside the string. */
  lemma WellSpacedAfter(s: string, k: nat)
    requires WellSpaced(s) && k < |s| && IsWhitespace(s[k])
    ensures 0 < k < |s| - 1 && WellSpaced(s[k + 1..])
  {
    var rest := s[k + 1..];
    assert !IsWhitespace(s[k + 1]);
    forall j | 0 <= j < |rest| - 1
      ensures !(IsWhitespace(rest[j]) && IsWhitespace(rest[j + 1]))
    {
      assert rest[j] == s[k + 1 + j] && rest[j + 1] == s[k + 2 + j];
    }
  }

  lemma ProperTokensCons(p: string, ps: seq<string>)
    requires p != "" && NoWhitespace(p) && ProperTokens(ps)
    ensures ProperTokens([p] + ps)
  {
    var r := [p] + ps;
    forall i | 0 <= i < |r|
      ensures r[i] != "" && NoWhitespace(r[i])
    {
      if i > 0 {
        assert r[i] == ps[i - 1];
      }
    }
  }

  lemma ConcatCons(p: string, ps: seq<string>)
    ensures Concat([p] + ps) == p + Concat(ps)
  {
    assert ([p] + ps)[1..] == ps;
  }

  /** Removing the whitespace of a string cut at a whitespace character after a
      whitespace-free prefix. */
  lemma {:induction false} RemoveWhitespaceAt(s: string, k: nat)
    requires k < |s| && IsWhitespace(s[k]) && NoWhitespace(s[..k])
    ensures RemoveWhitespace(s) == s[..k] + RemoveWhitespace(s[k + 1..])
    decreases k
  {
    var t := s[1..];
    if k == 0 {
      assert t == s[k + 1..];
    } else {
      assert s[..k][0] == s[0];
      assert t[k - 1] == s[k];
      var u := t[..k - 1];
      assert u == s[1..k];
      assert NoWhitespace(u) by {
        forall j | 0 <= j < |u|
          ensures !IsWhitespace(u[j])
        {
          assert u[j] == s[..k][j + 1];
        }
      }
      RemoveWhitespaceAt(t, k - 1);
      assert t[k..] == s[k + 1..];
      assert [s[0]] + s[1..k] == s[..k];
    }
  }

  /** Splitting a well-spaced string yields non-empty whitespace-free pieces that
      concatenate to its non-whitespace characters. */
  lemma {:induction false} RawSplitWellSpaced(s: string)
    requires |s| > 0 && WellSpaced(s)
    ensures ProperTokens(RawSplit(s))
    ensures Concat(RawSplit(s)) == RemoveWhitespace(s)
    decreases |s|
  {
    match FindFirst(s, IsWhitespace)
    case None =>
      RemoveWhitespaceNone(s);
    case Some(k) =>
      var rest := s[k + 1..];
      WellSpacedAfter(s, k);
      RawSplitWellSpaced(rest);
      assert RawSplit(s) == [s[..k]] + RawSplit(rest);
      assert NoWhitespace(s[..k]);
      ProperTokensCons(s[..k], RawSplit(rest));
      ConcatCons(s[..k], RawSplit(rest));
      RemoveWhitespaceAt(s, k);
  }

  lemma {:induction false} SeparatorsNone(s: string)
    requires NoWhitespace(s)
    ensures Separators(s) == ""
    decreases |s|
  {
    if |s| > 0 {
      SeparatorsNone(s[1..]);
    }
  }

  /** The separators of a string cut at a whitespace character after a
      whitespace-free prefix. */
  lemma {:induction false} SeparatorsAt(s: string, k: nat)
    requires k < |s| && IsWhitespace(s[k]) && NoWhitespace(s[..k])
    ensures Separators(s) == [s[k]] + Separators(s[k + 1..])
    decreases k
  {
    var t := s[1..];
    if k > 0 {
      assert s[..k][0] == s[0];
      assert t[k - 1] == s[k];
      var u := t[..k - 1];
      assert NoWhitespace(u) by {
        forall j | 0 <= j < |u|
          ensures !IsWhitespace(u[j])
        {
          assert u[j] == s[..k][j + 1];
        }
      }
      SeparatorsAt(t, k - 1);
      assert t[k..] == s[k + 1..];
    }
  }

  lemma InterleaveCons(p: string, ps: seq<string>, c: char, seps: string)
    requires |ps| == |seps| + 1
    ensures Interleave([p] + ps, [c] + seps) == p + [c] + Interleave(ps, seps)
  {
    assert ([p] + ps)[1..] == ps && ([c] + seps)[1..] == seps;
  }

  /** A well-spaced string is its pieces joined by its own whitespace characters. */
  lemma {:induction false} RawSplitInterleave(s: string)
    requires |s| > 0 && WellSpaced(s)
    ensures |RawSplit(s)| == |Separators(s)| + 1
    ensures Interleave(RawSplit(s), Separators(s)) == s
    decreases |s|
  {
    match FindFirst(s, IsWhitespace)
    case None =>
      SeparatorsNone(s);
    case Some(k) =>
      var rest := s[k + 1..];
      WellSpacedAfter(s, k);
      RawSplitInterleave(rest);
      assert RawSplit(s) == [s[..k]] + RawSplit(rest);
      assert NoWhitespace(s[..k]);
      SeparatorsAt(s, k);
      InterleaveCons(s[..k], RawSplit(rest), s[k], Separators(rest));
      CutAround(s, k);
  }

  lemma CutAround(s: string, k: nat)
    requires k < |s|
    ensures s == s[..k] + [s[k]] + s[k + 1..]
  {
    assert s[..k + 1] == s[..k] + [s[k]];
    assert s == s[..k + 1] + s[k + 1..];
  }

  /** The shape of the token list: an empty (or all-whitespace) sentence is one
      empty token; otherwise every token is non-empty, holds no whitespace, the
      tokens together are the sentence's non-whitespace characters in order, and
      joined by the whitespace characters left after collapsing they give the
      collapsed sentence back, so each token is one whole word of it. */
  lemma TokeniseShape(input: string)
    ensures Trim(input) == "" ==> Tokenise(input) == [""]
    ensures Trim(input) != "" ==>
              && ProperTokens(Tokenise(input))
              && Concat(Tokenise(input)) == RemoveWhitespace(Trim(input))
    ensures Trim(input) != "" ==>
              var c := Collapse(Trim(input));
              |Tokenise(input)| == |Separators(c)| + 1 && Interleave(Tokenise(input), Separators(c)) == c
  {
    var t := Trim(input);
    if t == "" {
      CollapseEnds(t);
    } else {
      assert !IsWhitespace(t[0]) && !IsWhitespace(t[|t| - 1]);
      CollapseTrimmed(t);
      SplitWellSpaced(Collapse(t));
    }
  }

  /** Collapsing a string that starts and ends with other characters gives a
      non-empty well-spaced string with the same non-whitespace characters. */
  lemma CollapseTrimmed(t: string)
    requires |t| > 0 && !IsWhitespace(t[0]) && !IsWhitespace(t[|t| - 1])
    ensures |Collapse(t)| > 0 && WellSpaced(Collapse(t))
    ensures RemoveWhitespace(Collapse(t)) == RemoveWhitespace(t)
  {
    CollapseKeeps(t);
    CollapseEnds(t);
    CollapseNoDoubles(t);
  }

  /** Splitting a non-empty well-spaced string yields proper tokens holding its
      non-whitespace characters. */
  lemma SplitWellSpaced(c: string)
    requires |c| > 0 && WellSpaced(c)
    ensures ProperTokens(SplitWhitespace(c))
    ensures Concat(SplitWhitespace(c)) == RemoveWhitespace(c)
    ensures |SplitWhitespace(c)| == |Separators(c)| + 1 && Interleave(SplitWhitespace(c), Separators(c)) == c
  {
    if NoWhitespace(c) {
      RemoveWhitespaceNone(c);
      SeparatorsNone(c);
      assert Concat([c]) == c;
    } else {
      RawSplitWellSpaced(c);
      RawSplitInterleave(c);
      var r := RawSplit(c);
      assert DropTrailingEmpty(r) == r by {
        assert r[|r| - 1] != "";
      }
    }
  }

  // ---------------------------------------------------------------------------
  // Leading, core and trailing

  /** The index of the first word character (the length when there is none). */
  function FirstWordIndex(s: string): (n: nat)
    ensures n <= |s|
    ensures forall k :: 0 <= k < n ==> !IsWordChar(s[k])
    ensures n < |s| ==> IsWordChar(s[n])
    decreases |s|
  {
    if |s| == 0 || IsWordChar(s[0]) then 0 else 1 + FirstWordIndex(s[1..])
  }

  /** The number of non-word characters after the last word character. */
  function TrailingNonWord(s: string): (n: nat)
    ensures n <= |s|
    ensures forall k :: |s| - n <= k < |s| ==> !IsWordChar(s[k])
    ensures n < |s| ==> IsWordChar(s[|s| - n - 1])
    decreases |s|
  {
    if |s| == 0 || IsWordChar(s[|s| - 1]) then 0
    else
      var t := s[..|s| - 1];
      assert forall k :: 0 <= k < |t| ==> t[k] == s[k];
      1 + TrailingNonWord(t)
  }

  /** A token with a word character, cut at its first and last word character. */
  datatype Parts = Parts(leading: string, core: string, trailing: string)

  /** The reference cut: the core spans from the first to the last word character. */
  function Dissect(s: string): Parts
    requires HasWordChar(s)
  {
    CutOrdered(s);
    var first := FirstWordIndex(s);
    var last := |s| - TrailingNonWord(s);
    Parts(s[..first], s[first..last], s[last..])
  }

  /** The first word character comes no later than the last one. */
  lemma CutOrdered(s: string)
    requires HasWordChar(s)
    ensures FirstWordIndex(s) < |s| - TrailingNonWord(s)
  {
    var k :| 0 <= k < |s| && IsWordChar(s[k]);
  }

  lemma SliceConcat(s: string, a: nat, b: nat)
    requires a <= b <= |s|
    ensures s[..a] + s[a..b] + s[b..] == s
  {
  }

  lemma NoWordCharInSuffix(s: string, b: nat)
    requires b <= |s| && forall k :: b <= k < |s| ==> !IsWordChar(s[k])
    ensures !HasWordChar(s[b..])
  {
    forall k | 0 <= k < |s| - b
      ensures !IsWordChar(s[b..][k])
    {
      assert s[b..][k] == s[b + k];
    }
  }

  /** The cut puts the token back together, leaves no word character outside the
      core, and the core starts and ends with a word character. */
  lemma DissectShape(s: string)
    requires HasWordChar(s)
    ensures var r := Dissect(s);
            && r.leading + r.core + r.trailing == s
            && !HasWordChar(r.leading) && !HasWordChar(r.trailing)
            && |r.core| > 0 && IsWordChar(r.core[0]) && IsWordChar(r.core[|r.core| - 1])
  {
    CutOrdered(s);
    CutFacts(s, FirstWordIndex(s), |s| - TrailingNonWord(s));
  }

  /** The parts of a cut at word characters `first` and `last - 1`. */
  lemma CutFacts(s: string, first: nat, last: nat)
    requires first < last <= |s|
    requires forall k :: 0 <= k < first ==> !IsWordChar(s[k])
    requires forall k :: last <= k < |s| ==> !IsWordChar(s[k])
    requires IsWordChar(s[first]) && IsWordChar(s[last - 1])
    ensures s[..first] + s[first..last] + s[last..] == s
    ensures !HasWordChar(s[..first]) && !HasWordChar(s[last..])
    ensures var core := s[first..last];
            |core| > 0 && IsWordChar(core[0]) && IsWordChar(core[|core| - 1])
  {
    SliceConcat(s, first, last);
    NoWordCharInPrefix(s, first);
    NoWordCharInSuffix(s, last);
    SliceEnds(s, first, last);
  }

  lemma NoWordCharInPrefix(s: string, a: nat)
    requires a <= |s| && forall k :: 0 <= k < a ==> !IsWordChar(s[k])
    ensures !HasWordChar(s[..a])
  {
    forall k | 0 <= k < a
      ensures !IsWordChar(s[..a][k])
    {
      assert s[..a][k] == s[k];
    }
  }

  lemma SliceEnds(s: string, a: nat, b: nat)
    requires a < b <= |s|
    ensures |s[a..b]| == b - a && s[a..b][0] == s[a] && s[a..b][b - a - 1] == s[b - 1]
  {
  }

  /** A word-free prefix followed by a word character ends at the first word character. */
  lemma FirstWordChar(s: string, a: string)
    requires |a| < |s| && s[..|a|] == a && !HasWordChar(a) && IsWordChar(s[|a|])
    ensures |a| == FirstWordIndex(s)
  {
    assert forall k :: 0 <= k < |a| ==> s[k] == a[k];
  }

  /** A word-free suffix preceded by a word character starts after the last word character. */
  lemma LastWordChar(s: string, c: string)
    requires |c| < |s| && s[|s| - |c|..] == c && !HasWordChar(c) && IsWordChar(s[|s| - |c| - 1])
    ensures |c| == TrailingNonWord(s)
  {
    assert forall k :: 0 <= k < |c| ==> s[|s| - |c| + k] == c[k];
  }

  /** The cut is the only one with word-free outer parts and a core that starts and
      ends with a word character. */
  lemma DissectUnique(s: string, p: Parts)
    requires HasWordChar(s)
    ensures Dissect(s) == p <==>
      && p.leading + p.core + p.trailing == s
      && !HasWordChar(p.leading) && !HasWordChar(p.trailing)
      && |p.core| > 0 && IsWordChar(p.core[0]) && IsWordChar(p.core[|p.core| - 1])
  {
    DissectShape(s);
    if && p.leading + p.core + p.trailing == s
       && !HasWordChar(p.leading) && !HasWordChar(p.trailing)
       && |p.core| > 0 && IsWordChar(p.core[0]) && IsWordChar(p.core[|p.core| - 1])
    {
      PartsAreTheCut(s, p);
    }
  }

  /** Parts with the shape of a cut sit at the first and last word characters. */
  lemma PartsAreTheCut(s: string, p: Parts)
    requires p.leading + p.core + p.trailing == s
    requires !HasWordChar(p.leading) && !HasWordChar(p.trailing)
    requires |p.core| > 0 && IsWordChar(p.core[0]) && IsWordChar(p.core[|p.core| - 1])
    ensures HasWordChar(s) && Dissect(s) == p
  {
    var a := |p.leading|;
    var b := |p.leading| + |p.core|;
    PartsSlices(s, p.leading, p.core, p.trailing);
    assert s[a] == p.core[0] && s[b - 1] == p.core[|p.core| - 1];
    FirstWordChar(s, p.leading);
    LastWordChar(s, p.trailing);
    assert b == |s| - TrailingNonWord(s);
  }

  lemma PartsSlices(s: string, x: string, y: string, z: string)
    requires x + y + z == s
    ensures s[..|x|] == x && s[|x|..|x| + |y|] == y && s[|x| + |y|..] == z
    ensures s[|s| - |z|..] == z
  {
  }

  /** The first example of the transcriber's own commentary: "'hello!'," is cut
      into "'", "hello" and "!',". */
  lemma DissectHello()
    ensures HasWordChar("'hello!',") && Dissect("'hello!',") == Parts("'", "hello", "!',")
  {
    var s := "'hello!',";
    assert IsWordChar(s[1]);
    var p := Parts("'", "hello", "!',");
    assert p.leading + p.core + p.trailing == s;
    assert !HasWordChar(p.trailing) by {
      assert !IsWordChar(p.trailing[0]) && !IsWordChar(p.trailing[1]) && !IsWordChar(p.trailing[2]);
    }
    DissectUnique(s, p);
  }

  /** The second example: "well-known" is all core. */
  lemma DissectWellKnown()
    ensures HasWordChar("well-known") && Dissect("well-known") == Parts("", "well-known", "")
  {
    var s := "well-known";
    assert IsWordChar(s[0]);
    var p := Parts("", "well-known", "");
    assert p.leading + p.core + p.trailing == s;
    DissectUnique(s, p);
  }

  // ---------------------------------------------------------------------------
  // The cut as the transcriber computes it from the two match lists

  /** The first word run starts at the first word character and the last ends
      after the last word character. */
  lemma RunsSpan(s: string)
    requires HasWordChar(s)
    ensures var wr := WordRuns(s);
            && |wr| > 0
            && wr[0].start == FirstWordIndex(s)
            && wr[|wr| - 1].end == |s| - TrailingNonWord(s)
  {
    WordRunsShape(s);
    WordRunsEnds(s);
    var wr := WordRuns(s);
    assert IsWordRun(s, wr[0]) && IsWordRun(s, wr[|wr| - 1]);
    var first := wr[0].start;
    var last := wr[|wr| - 1].end;
    assert IsWordChar(s[last - 1]);
    FirstWordChar(s, s[..first]);
    LastWordChar(s, s[last..]);
  }

  /** The non-word matches before the first word character are the leading
      characters one by one; every later match starts after it. */
  lemma LeadingMatches(s: string)
    ensures var nw := NonWordChars(s);
            var first := FirstWordIndex(s);
            && first <= |nw|
            && (forall k :: 0 <= k < first ==> nw[k] == Match(k, k + 1))
            && (forall k :: first <= k < |nw| ==> nw[k].start > first)
  {
    var first := FirstWordIndex(s);
    var a, b := NonWordIn(s, 0, first), NonWordIn(s, first, |s|);
    NonWordSplit(s, 0, first, |s|);
    NonWordStretch(s, 0, first);
    NonWordInElements(s, first, |s|);
    forall k | 0 <= k < |b|
      ensures b[k].start > first
    {
      PastWordChar(s, first, b[k].start);
    }
    MatchesAfterPrefix(NonWordChars(s), a, b, first);
  }

  lemma PastWordChar(s: string, first: nat, st: nat)
    requires first <= st < |s| && !IsWordChar(s[st]) && IsWordChar(s[first])
    ensures st > first
  {
  }

  /** A match list made of the characters 0 .. first - 1 one by one, then matches
      that start after `first`. */
  lemma MatchesAfterPrefix(nw: seq<Match>, a: seq<Match>, b: seq<Match>, first: nat)
    requires nw == a + b && |a| == first
    requires forall k :: 0 <= k < first ==> a[k] == Match(k, k + 1)
    requires forall k :: 0 <= k < |b| ==> b[k].start > first
    ensures first <= |nw|
    ensures forall k :: 0 <= k < first ==> nw[k] == Match(k, k + 1)
    ensures forall k :: first <= k < |nw| ==> nw[k].start > first
  {
    assert forall k :: first <= k < |nw| ==> nw[k] == b[k - first];
  }

  /** Matches that end before `last`, then the characters from `last` on one by one. */
  lemma MatchesBeforeSuffix(nw: seq<Match>, a: seq<Match>, b: seq<Match>, last: nat)
    requires nw == a + b
    requires forall k :: 0 <= k < |a| ==> a[k].end < last
    requires forall k :: 0 <= k < |b| ==> b[k] == Match(last + k, last + k + 1)
    ensures var m := |nw| - |b|;
            && 0 <= m
            && (forall k :: m <= k < |nw| ==> nw[k] == Match(last + k - m, last + k - m + 1))
            && (forall k :: 0 <= k < m ==> nw[k].end < last)
  {
    assert forall k :: |a| <= k < |nw| ==> nw[k] == b[k - |a|];
  }

  /** The non-word matches after the last word character are the trailing
      characters one by one; every earlier match starts before it. */
  lemma TrailingMatches(s: string)
    ensures var nw := NonWordChars(s);
            var last := |s| - TrailingNonWord(s);
            var m := |nw| - TrailingNonWord(s);
            && 0 <= m
            && (forall k :: m <= k < |nw| ==> nw[k] == Match(last + k - m, last + k - m + 1))
            && (forall k :: 0 <= k < m ==> nw[k].end < last)
  {
    var last := |s| - TrailingNonWord(s);
    var a, b := NonWordIn(s, 0, last), NonWordIn(s, last, |s|);
    NonWordSplit(s, 0, last, |s|);
    NonWordStretch(s, last, |s|);
    NonWordInElements(s, 0, last);
    assert forall k :: 0 <= k < |a| ==> a[k].end < last;
    MatchesBeforeSuffix(NonWordChars(s), a, b, last);
  }

  /** The leading loop of `transcribe`: from the front of the non-word matches,
      as long as they end before the first word run. */
  method GatherLeading(s: string, nw: seq<Match>, first: nat) returns (leading: string, leadingLast: int)
    requires first <= |nw| && first <= |s|
    requires forall k :: 0 <= k < first ==> nw[k] == Match(k, k + 1)
    requires forall k :: first <= k < |nw| ==> first < nw[k].start
    requires forall k :: 0 <= k < |nw| ==> nw[k].start < nw[k].end <= |s|
    ensures leading == s[..first] && leadingLast == first - 1
  {
    leadingLast := -1;
    leading := "";
    if |nw| > 0 && nw[0].start == 0 {
      var j := 0;
      leadingLast := j;
      leading := leading + s[nw[j].start..nw[j].end];
      j := j + 1;
      while j < |nw| && nw[j].end <= first
        invariant 1 <= j <= first
        invariant leadingLast == j - 1 && leading == s[..j]
      {
        leadingLast := j;
        assert s[..j + 1] == s[..j] + s[j..j + 1];
        leading := leading + s[nw[j].start..nw[j].end];
        j := j + 1;
      }
    }
  }

  /** The trailing loop of `transcribe`: from the back of the non-word matches,
      as long as they start after the last word run. */
  method GatherTrailing(s: string, nw: seq<Match>, last: nat, m: nat) returns (trailing: string, trailingFirst: int)
    requires last <= |s| && m <= |nw| && |nw| - m == |s| - last
    requires forall k :: m <= k < |nw| ==> nw[k] == Match(last + k - m, last + k - m + 1)
    requires forall k :: 0 <= k < m ==> nw[k].start < nw[k].end < last
    ensures trailing == s[last..]
    ensures trailingFirst < 0 ==> last == |s|
    ensures trailingFirst >= 0 ==> trailingFirst < |nw| && nw[trailingFirst].start == last
  {
    trailingFirst := -1;
    trailing := "";
    if |nw| > 0 && nw[|nw| - 1].end == |s| {
      var j := |nw| - 1;
      trailingFirst := j;
      trailing := s[nw[j].start..nw[j].end] + trailing;
      j := j - 1;
      while j >= 0 && nw[j].start >= last
        invariant m - 1 <= j < |nw| - 1
        invariant trailingFirst == j + 1 && trailing == s[last + j + 1 - m..]
      {
        trailingFirst := j;
        assert s[last + j - m..] == s[last + j - m..last + j - m + 1] + s[last + j + 1 - m..];
        trailing := s[nw[j].start..nw[j].end] + trailing;
        j := j - 1;
      }
    }
  }

  /** The dissection of `transcribe`: the leading and trailing characters gathered
      from the non-word matches around the word runs, and the core cut out between
      them, is the reference cut. */
  method DissectByMatches(s: string) returns (r: Parts)
    requires HasWordChar(s)
    ensures r == Dissect(s)
  {
    var wr := WordRuns(s);
    var nw := NonWordChars(s);
    RunsSpan(s);
    NonWordInElements(s, 0, |s|);
    LeadingMatches(s);
    TrailingMatches(s);
    var leading, leadingLast := GatherLeading(s, nw, wr[0].start);
    var trailing, trailingFirst := GatherTrailing(s, nw, wr[|wr| - 1].end, |nw| - TrailingNonWord(s));
    var from := if leadingLast < 0 then 0 else nw[leadingLast].end;
    var to := if trailingFirst < 0 then |s| else nw[trailingFirst].start;
    var first, last := FirstWordIndex(s), |s| - TrailingNonWord(s);
    assert from == first && to == last;
    assert leading == s[..first] && trailing == s[last..];
    r := Parts(leading, s[from..to], trailing);
    assert r == Parts(s[..first], s[first..last], s[last..]);
  }
}
