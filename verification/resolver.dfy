/** The token loop of `transcribe`: how one whitespace-separated token becomes a
    transcription segment, and how the tokens of a sentence become the row of
    segments between the opening and the closing "/".

    Resolution decides only which lemmas to look up, so the word buttons of the
    segments built here carry the lookup key (the lemma text handed to
    `queryDatabase`). The lexicon turns keys into entries afterwards; since the
    lexicon is read-only while a sentence is transcribed and no decision below
    depends on what it returns, this is the same as querying on the spot. */
module Resolver {
  import opened Wrappers
  import opened JavaText
  import opened Statics
  import opened Punctuation
  import opened Currency
  import opened Numerals
  import opened Dissection
  import opened Segments
  import opened SQLiteBridge

  /** The registries the token loop consults. */
  datatype Tables = Tables(punctuation: seq<PunctuationCharacter>, currency: seq<CurrencyCharacter>)

  // ---------------------------------------------------------------------------
  // Small predicates of the transcriber

  /** `isSingularExpression`: the expressions after which a currency is read in the singular. */
  predicate IsSingularExpression(s: string) {
    s in {"a", "one", "1", "-1", "1.00", "-1.00", "1.-", "single"}
  }

  /** `stringEndsWithMinusCharacter`: the last character is the hyphen-minus or the minus sign. */
  predicate EndsWithMinus(s: string) {
    |s| > 0 && (s[|s| - 1] == '-' || s[|s| - 1] == '\U{2212}')
  }

  /** The characters Java's `.` does not match. */
  predicate IsLineTerminator(c: char) {
    c == '\n' || c == '\r' || c == '\U{85}' || c == '\U{2028}' || c == '\U{2029}'
  }

  /** `matches(".*\\d+.*")`: an ASCII digit somewhere and no line terminator anywhere. */
  predicate HasDigitLine(s: string) {
    && (exists k :: 0 <= k < |s| && IsDigit(s[k]))
    && (forall k :: 0 <= k < |s| ==> !IsLineTerminator(s[k]))
  }

  /** The bar text of the transcriber's own delimiter buttons: "||" for mode 2,
      "|" for every other mode. */
  function DelimiterBar(mode: int): string {
    if mode == 2 then "||" else "|"
  }

  // ---------------------------------------------------------------------------
  // findHighestPunctCharInList

  /** The mark a single character stands for, if any: `getPunctChar` on the
      one-character string, its exceptions read as "no mark". */
  function MarkOf(known: seq<PunctuationCharacter>, c: char): (r: Option<PunctuationCharacter>)
    ensures r.Some? <==> IsPunctuationCharacter(known, [c])
    ensures r.Some? ==> r.value == GetPunctChar(known, c).value && r.value in known
  {
    match GetPunctCharOfString(known, [c])
    case Success(p) => Some(p)
    case Failure(_) => None
  }

  /** The punctuation marks among the characters, in order; a character that is
      not a known mark, or not a single Java character, is skipped. */
  function PunctMatches(known: seq<PunctuationCharacter>, s: string): (r: seq<PunctuationCharacter>)
    ensures forall i :: 0 <= i < |r| ==> r[i] in known
    ensures |r| == 0 <==> forall k :: 0 <= k < |s| ==> !IsPunctuationCharacter(known, [s[k]])
  {
    if |s| == 0 then []
    else
      var here := match MarkOf(known, s[0])
        case Some(p) => [p]
        case None => [];
      var rest := PunctMatches(known, s[1..]);
      assert forall k :: 1 <= k < |s| ==> s[1..][k - 1] == s[k];
      here + rest
  }

  lemma PunctMatchesCons(known: seq<PunctuationCharacter>, s: string)
    requires |s| > 0
    ensures PunctMatches(known, s) ==
              (if MarkOf(known, s[0]).Some? then [MarkOf(known, s[0]).value] else []) + PunctMatches(known, s[1..])
  {
  }

  /** Each collected mark is the mark of one of the characters, and the mark of
      every character is collected. */
  lemma PunctMatchesOrigin(known: seq<PunctuationCharacter>, s: string)
    ensures var r := PunctMatches(known, s);
            && (forall i :: 0 <= i < |r| ==> exists k :: 0 <= k < |s| && MarkOf(known, s[k]) == Some(r[i]))
            && (forall k :: 0 <= k < |s| && MarkOf(known, s[k]).Some? ==> MarkOf(known, s[k]).value in r)
  {
    PunctMatchesSound(known, s);
    PunctMatchesComplete(known, s);
  }

  lemma {:induction false} PunctMatchesSound(known: seq<PunctuationCharacter>, s: string)
    ensures var r := PunctMatches(known, s);
            forall i :: 0 <= i < |r| ==> exists k :: 0 <= k < |s| && MarkOf(known, s[k]) == Some(r[i])
    decreases |s|
  {
    if |s| > 0 {
      PunctMatchesSound(known, s[1..]);
      PunctMatchesCons(known, s);
      var m := MarkOf(known, s[0]);
      var here := if m.Some? then [m.value] else [];
      var rest := PunctMatches(known, s[1..]);
      var r := PunctMatches(known, s);
      assert r == here + rest;
      forall i | 0 <= i < |r|
        ensures exists k :: 0 <= k < |s| && MarkOf(known, s[k]) == Some(r[i])
      {
        if i < |here| {
          assert MarkOf(known, s[0]) == Some(r[i]);
        } else {
          var k :| 0 <= k < |s[1..]| && MarkOf(known, s[1..][k]) == Some(rest[i - |here|]);
          assert s[1..][k] == s[k + 1];
        }
      }
    }
  }

  lemma {:induction false} PunctMatchesComplete(known: seq<PunctuationCharacter>, s: string)
    ensures forall k :: 0 <= k < |s| && MarkOf(known, s[k]).Some? ==> MarkOf(known, s[k]).value in PunctMatches(known, s)
    decreases |s|
  {
    if |s| > 0 {
      PunctMatchesComplete(known, s[1..]);
      PunctMatchesCons(known, s);
      forall k | 0 <= k < |s| && MarkOf(known, s[k]).Some?
        ensures MarkOf(known, s[k]).value in PunctMatches(known, s)
      {
        if k > 0 {
          assert s[1..][k - 1] == s[k];
        }
      }
    }
  }

  /** The head of the list after a stable sort by descending delimiter mode: the
      first mark whose mode is the largest. */
  function Highest(ps: seq<PunctuationCharacter>): (r: Option<PunctuationCharacter>)
    ensures r.None? <==> |ps| == 0
    ensures r.Some? ==> forall j :: 0 <= j < |ps| ==> ps[j].delimiterMode <= r.value.delimiterMode
    ensures r.Some? ==> exists i :: 0 <= i < |ps| && ps[i] == r.value
                                    && forall j :: 0 <= j < i ==> ps[j].delimiterMode < r.value.delimiterMode
  {
    if |ps| == 0 then None
    else
      match Highest(ps[1..])
      case None => Some(ps[0])
      case Some(q) =>
        if q.delimiterMode > ps[0].delimiterMode then
          var i :| 0 <= i < |ps[1..]| && ps[1..][i] == q
                   && forall j :: 0 <= j < i ==> ps[1..][j].delimiterMode < q.delimiterMode;
          assert ps[i + 1] == q;
          Some(q)
        else
          Some(ps[0])
  }

  /** A mark of the largest mode with only smaller modes before it is the one found. */
  lemma HighestIsFirstMaximum(ps: seq<PunctuationCharacter>, i: nat)
    requires i < |ps|
    requires forall j :: 0 <= j < |ps| ==> ps[j].delimiterMode <= ps[i].delimiterMode
    requires forall j :: 0 <= j < i ==> ps[j].delimiterMode < ps[i].delimiterMode
    ensures Highest(ps) == Some(ps[i])
  {
    var r := Highest(ps).value;
    var k :| 0 <= k < |ps| && ps[k] == r && forall j :: 0 <= j < k ==> ps[j].delimiterMode < r.delimiterMode;
    assert r.delimiterMode == ps[i].delimiterMode;
    assert k == i;
  }

  /** `findHighestPunctCharInList` over the matches of the given characters: the
      mark of one of them whose mode no other character's mark exceeds, and none
      exactly when no character is a mark. */
  function FindHighestPunctChar(known: seq<PunctuationCharacter>, s: string): (r: Option<PunctuationCharacter>)
    ensures r.None? <==> forall k :: 0 <= k < |s| ==> !IsPunctuationCharacter(known, [s[k]])
    ensures r.Some? ==> r.value in known
    ensures r.Some? ==> exists k :: 0 <= k < |s| && MarkOf(known, s[k]) == r
    ensures r.Some? ==> forall k :: 0 <= k < |s| && MarkOf(known, s[k]).Some? ==>
                          MarkOf(known, s[k]).value.delimiterMode <= r.value.delimiterMode
  {
    HighestMatch(known, s);
    Highest(PunctMatches(known, s))
  }

  lemma HighestMatch(known: seq<PunctuationCharacter>, s: string)
    ensures var r := Highest(PunctMatches(known, s));
            r.Some? ==>
              && (exists k :: 0 <= k < |s| && MarkOf(known, s[k]) == r)
              && forall k :: 0 <= k < |s| && MarkOf(known, s[k]).Some? ==>
                   MarkOf(known, s[k]).value.delimiterMode <= r.value.delimiterMode
  {
    var ms := PunctMatches(known, s);
    var r := Highest(ms);
    PunctMatchesOrigin(known, s);
    if r.Some? {
      forall k | 0 <= k < |s| && MarkOf(known, s[k]).Some?
        ensures MarkOf(known, s[k]).value.delimiterMode <= r.value.delimiterMode
      {
        var i :| 0 <= i < |ms| && ms[i] == MarkOf(known, s[k]).value;
      }
      var i :| 0 <= i < |ms| && ms[i] == r.value;
    }
  }

  // ---------------------------------------------------------------------------
  // Tokens without a word character

  /** A token without word characters: a lone punctuation mark becomes an inner
      delimiter segment unless a delimiter precedes it or it is the last token; a
      lone currency sign is read in the singular or plural after the previous
      segment's lemma; anything else is looked up as it is. */
  function ResolveNonWord(t: Tables, prev: Segment<string>, token: string, isLast: bool): Segment<string> {
    var plain := NewLemmaSegment(token);
    if |token| == 1 && IsPunctuationCharacter(t.punctuation, token) then
      if !HasTrailingDelimiter(prev) && !isLast then InnerDelimiterSegment(t.punctuation, token).value
      else plain
    else if |token| == 1 && IsCurrencyCharacter(t.currency, token) then
      var c := GetCurrencyChar(t.currency, token[0]).value;
      AddButtons(plain, [WordButton(LemmaFor(c, IsSingularExpression(prev.lemmaText)))])
    else
      AddButtons(plain, [WordButton(token)])
  }

  // ---------------------------------------------------------------------------
  // Tokens with a word character

  /** The leading delimiter: the highest leading mark draws a bar when its mode is
      positive and no delimiter precedes, except for a quotation mark when the
      trailing characters hold one too. */
  function LeadingButtons(t: Tables, prev: Segment<string>, leading: string, trailing: string): (bs: seq<Button<string>>)
    ensures |bs| <= 1
    ensures |bs| == 1 <==>
              var pc := FindHighestPunctChar(t.punctuation, leading);
              && pc.Some? && pc.value.delimiterMode > 0
              && !(pc.value.character == '"' && '"' in trailing)
              && !HasTrailingDelimiter(prev)
    ensures |bs| == 1 ==>
              bs[0] == DelimiterButton(DelimiterBar(FindHighestPunctChar(t.punctuation, leading).value.delimiterMode), false)
  {
    if leading == "" then []
    else
      match FindHighestPunctChar(t.punctuation, leading)
      case None => []
      case Some(pc) =>
        if pc.character == '"' && '"' in trailing then []
        else if pc.delimiterMode > 0 && !HasTrailingDelimiter(prev) then [DelimiterButton(DelimiterBar(pc.delimiterMode), false)]
        else []
  }

  /** Only word buttons, no delimiter. */
  predicate WordButtonsOnly<W>(bs: seq<Button<W>>) {
    forall i :: 0 <= i < |bs| ==> bs[i].WordButton?
  }

  lemma WordButtonsOnlyAppend<W>(a: seq<Button<W>>, b: seq<Button<W>>)
    requires WordButtonsOnly(a) && WordButtonsOnly(b)
    ensures WordButtonsOnly(a + b)
  {
  }

  /** Word buttons for a list of lookup keys. */
  function WordButtons(keys: seq<string>): (bs: seq<Button<string>>)
    ensures |bs| == |keys| && WordButtonsOnly(bs)
    ensures forall i :: 0 <= i < |keys| ==> bs[i] == WordButton(keys[i])
  {
    if |keys| == 0 then [] else [WordButton(keys[0])] + WordButtons(keys[1..])
  }

  /** The lookup keys of the common reading of a numeral: never none, since 0 is "zero". */
  function NumeralKeys(n: nat, d: string): (keys: seq<string>)
    requires AllDigits(d)
    ensures |keys| == |NumeralWords(n, d)| > 0
  {
    NumeralWellFormed(n, d);
    SpellAll(NumeralWords(n, d))
  }

  /** The lookup keys of the year reading. */
  function YearKeys(n: nat): (keys: seq<string>)
    requires 100 < n < 2000
    ensures |keys| == |YearWords(n)| > 0
  {
    YearWellFormed(n);
    SpellAll(YearWords(n))
  }

  /** A parsed numeral is offered as a year: no minus before it, no decimals, and
      strictly between 100 and 2000. */
  predicate IsYear(leading: string, num: Numeral) {
    !EndsWithMinus(leading) && num.decimalPart == "" && 100 < num.integerPart < 2000
  }

  /** What the lemma part of a token turns into: the leading text (which may give up
      a minus), the lemma text, the buttons, and the two readings of a year. */
  datatype LemmaPart = LemmaPart(leading: string, middle: string, buttons: seq<Button<string>>, readings: Option<Readings<string>>)

  /** A parsed numeral: a year gets its year reading with the common one kept aside;
      any other numeral is read out, after "minus" when the leading text ends with a
      minus, which then moves into the lemma text. Only the minus may move, and
      every button is a word button. */
  function NumeralPart(leading: string, core: string, num: Numeral): (l: LemmaPart)
    requires AllDigits(num.decimalPart)
    ensures l.leading + l.middle == leading + core
    ensures |l.buttons| > 0 && WordButtonsOnly(l.buttons)
  {
    if IsYear(leading, num) then
      var year := YearKeys(num.integerPart);
      LemmaPart(leading, core, WordButtons(year), Some(Readings(year, NumeralKeys(num.integerPart, ""))))
    else if EndsWithMinus(leading) then
      var keys := WordButtons(NumeralKeys(num.integerPart, num.decimalPart));
      assert leading == leading[..|leading| - 1] + [leading[|leading| - 1]];
      WordButtonsOnlyAppend([WordButton("minus")], keys);
      LemmaPart(leading[..|leading| - 1], [leading[|leading| - 1]] + core, [WordButton("minus")] + keys, None)
    else
      LemmaPart(leading, core, WordButtons(NumeralKeys(num.integerPart, num.decimalPart)), None)
  }

  /** The lemma transcription: a core with a digit is parsed as a numeral; a core
      that does not parse, or has no digit, is looked up as it is. */
  function ResolveLemma(leading: string, core: string): (l: LemmaPart)
    ensures l.leading + l.middle == leading + core
    ensures |l.buttons| > 0 && WordButtonsOnly(l.buttons)
  {
    if HasDigitLine(core) then
      match ParseNumeral(core)
      case None => LemmaPart(leading, core, [WordButton(core)], None)
      case Some(num) => NumeralPart(leading, core, num)
    else
      LemmaPart(leading, core, [WordButton(core)], None)
  }

  /** What the trailing part turns into: the lemma text (which may take a currency
      sign), the trailing text, and the buttons. */
  datatype TrailingPart = TrailingPart(middle: string, trailing: string, buttons: seq<Button<string>>)

  /** A currency sign right after the lemma is read in the singular or plural after
      the lemma text and moves into it. */
  function TrailingSign(t: Tables, middle: string, trailing: string): (p: TrailingPart)
    requires trailing != ""
    ensures p.middle + p.trailing == middle + trailing
    ensures |p.buttons| <= 1 && WordButtonsOnly(p.buttons)
    ensures |p.buttons| == 1 <==> IsCurrencyChar(t.currency, trailing[0])
    ensures IsCurrencyChar(t.currency, trailing[0]) ==>
              var c := GetCurrencyChar(t.currency, trailing[0]).value;
              && p.middle == middle + [trailing[0]] && p.trailing == trailing[1..]
              && p.buttons == [WordButton(LemmaFor(c, IsSingularExpression(middle)))]
    ensures !IsCurrencyChar(t.currency, trailing[0]) ==> p == TrailingPart(middle, trailing, [])
  {
    match GetCurrencyChar(t.currency, trailing[0])
    case Success(c) =>
      assert trailing == [trailing[0]] + trailing[1..];
      TrailingPart(middle + [c.character], trailing[1..], [WordButton(LemmaFor(c, IsSingularExpression(middle)))])
    case Failure(_) => TrailingPart(middle, trailing, [])
  }

  /** The trailing delimiter: the highest trailing mark draws a bar when its mode is
      positive and the token is not the last, except for a quotation mark when the
      leading text holds one too. */
  function TrailingBar(t: Tables, isLast: bool, leading: string, trailing: string): (bs: seq<Button<string>>)
    ensures |bs| <= 1
    ensures |bs| == 1 <==>
              var pc := FindHighestPunctChar(t.punctuation, trailing);
              && pc.Some? && pc.value.delimiterMode > 0
              && !(pc.value.character == '"' && '"' in leading)
              && !isLast
    ensures |bs| == 1 ==>
              bs[0] == DelimiterButton(DelimiterBar(FindHighestPunctChar(t.punctuation, trailing).value.delimiterMode), false)
  {
    match FindHighestPunctChar(t.punctuation, trailing)
    case None => []
    case Some(pc) =>
      if pc.character == '"' && '"' in leading then []
      else if pc.delimiterMode > 0 && !isLast then [DelimiterButton(DelimiterBar(pc.delimiterMode), false)]
      else []
  }

  /** A mark among the characters with a positive mode. */
  predicate HasBarMark(known: seq<PunctuationCharacter>, s: string) {
    exists k :: 0 <= k < |s| && MarkOf(known, s[k]).Some? && MarkOf(known, s[k]).value.delimiterMode > 0
  }

  /** A mark among the characters with the major-bar mode. */
  predicate HasMajorMark(known: seq<PunctuationCharacter>, s: string) {
    exists k :: 0 <= k < |s| && MarkOf(known, s[k]).Some? && MarkOf(known, s[k]).value.delimiterMode == 2
  }

  /** The modes of the registry are 0, 1 and 2, as the seed rows have them. */
  predicate ModesInRange(known: seq<PunctuationCharacter>) {
    forall i :: 0 <= i < |known| ==> 0 <= known[i].delimiterMode <= 2
  }

  /** The bar for a run of marks, stated over the marks themselves: some mark calls
      for a bar, and the bar is the major one exactly when some mark calls for it. */
  lemma BarByMarks(known: seq<PunctuationCharacter>, s: string)
    requires ModesInRange(known)
    ensures var pc := FindHighestPunctChar(known, s);
            && (pc.Some? && pc.value.delimiterMode > 0 <==> HasBarMark(known, s))
            && (pc.Some? && pc.value.delimiterMode > 0 ==> (DelimiterBar(pc.value.delimiterMode) == "||" <==> HasMajorMark(known, s)))
  {
    var pc := FindHighestPunctChar(known, s);
    if pc.Some? {
      var k :| 0 <= k < |s| && MarkOf(known, s[k]) == pc;
      var i :| 0 <= i < |known| && known[i] == pc.value;
    }
  }

  /** Without a quotation mark on the other side, the leading bar is drawn exactly
      when a leading mark calls for one and no delimiter precedes; it is the major
      bar exactly when a leading mark calls for that. */
  lemma LeadingBarByMarks(t: Tables, prev: Segment<string>, leading: string, trailing: string)
    requires ModesInRange(t.punctuation) && '"' !in trailing
    ensures var bs := LeadingButtons(t, prev, leading, trailing);
            && (|bs| == 1 <==> HasBarMark(t.punctuation, leading) && !HasTrailingDelimiter(prev))
            && (|bs| == 1 ==> (bs[0].text == "||" <==> HasMajorMark(t.punctuation, leading)))
  {
    BarByMarks(t.punctuation, leading);
  }

  /** Without a quotation mark on the other side, the trailing bar is drawn exactly
      when a trailing mark calls for one and the token is not the last; it is the
      major bar exactly when a trailing mark calls for that. */
  lemma TrailingBarByMarks(t: Tables, isLast: bool, leading: string, trailing: string)
    requires ModesInRange(t.punctuation) && '"' !in leading
    ensures var bs := TrailingBar(t, isLast, leading, trailing);
            && (|bs| == 1 <==> HasBarMark(t.punctuation, trailing) && !isLast)
            && (|bs| == 1 ==> (bs[0].text == "||" <==> HasMajorMark(t.punctuation, trailing)))
  {
    BarByMarks(t.punctuation, trailing);
  }

  /** The registries as the database seeds them. */
  const SeedTables := Tables(SeedPunctuation, SeedCurrency)

  /** The marks the examples below rely on, as the seed registry has them: the
      quotation mark draws the minor bar, the hyphen-minus none, the full stop the
      major bar, and the dollar sign is no mark. */
  predicate SeedLike(known: seq<PunctuationCharacter>) {
    && MarkOf(known, '"') == Some(PunctuationCharacter('"', 1))
    && MarkOf(known, '-') == Some(PunctuationCharacter('-', 0))
    && MarkOf(known, '.') == Some(PunctuationCharacter('.', 2))
    && MarkOf(known, '$') == None
  }

  /** The registries as far as the examples use them: the marks above, and the
      dollar sign as the only currency sign among the example characters. */
  predicate SeedLikeTables(t: Tables) {
    && SeedLike(t.punctuation)
    && GetCurrencyChar(t.currency, '$') == Success(CurrencyCharacter('$', "dollar", "dollars"))
    && !IsCurrencyChar(t.currency, '.')
    && !IsCurrencyChar(t.currency, '"')
  }

  /** The seed registries are such registries, so the examples below hold for them. */
  lemma SeedTablesLike()
    ensures SeedLikeTables(SeedTables)
  {
    SeedMarks();
    SeedSignLookups();
    SeedCurrencyMisses('.');
    SeedCurrencyMisses('"');
  }

  lemma SeedMarks()
    ensures SeedLike(SeedPunctuation)
  {
    SeedSignLookups();
    SeedPunctAt(2);
    assert SeedPunctuation[2] == PunctuationCharacter('"', 1);
    assert IsBmp('"') && IsBmp('-') && IsBmp('.');
    JavaLengthOne(['"']);
    JavaLengthOne(['-']);
    JavaLengthOne(['.']);
  }

  lemma SeedCurrencyMisses(c: char)
    requires c == '.' || c == '"'
    ensures !IsCurrencyChar(SeedCurrency, c)
  {
    assert forall i :: 0 <= i < |SeedCurrency| ==> SeedCurrency[i].character != c;
  }

  /** The highest mark of a single character is its own mark. */
  lemma HighestOfOne(known: seq<PunctuationCharacter>, c: char)
    ensures FindHighestPunctChar(known, [c]) == MarkOf(known, c)
  {
    SingleMatch(known, c);
  }

  lemma QuoteHighest(known: seq<PunctuationCharacter>)
    requires SeedLike(known)
    ensures FindHighestPunctChar(known, "\"") == Some(PunctuationCharacter('"', 1))
  {
    HighestOfOne(known, '"');
  }

  /** Of a full stop and a closing quotation mark, the full stop is the highest. */
  lemma QuotedStopHighest(known: seq<PunctuationCharacter>)
    requires SeedLike(known)
    ensures FindHighestPunctChar(known, ".\"") == Some(PunctuationCharacter('.', 2))
  {
    PairMatch(known, '.', '"');
    SingleMatch(known, '"');
    var ms := [PunctuationCharacter('.', 2), PunctuationCharacter('"', 1)];
    assert PunctMatches(known, ['.', '"']) == ms;
    assert ms[1..] == [PunctuationCharacter('"', 1)];
    assert Highest(ms[1..]) == Some(PunctuationCharacter('"', 1));
    assert Highest(ms) == Some(PunctuationCharacter('.', 2));
  }

  lemma SingleMatch(known: seq<PunctuationCharacter>, c: char)
    ensures PunctMatches(known, [c]) == if MarkOf(known, c).Some? then [MarkOf(known, c).value] else []
  {
    PunctMatchesCons(known, [c]);
    assert [c][1..] == [];
  }

  lemma PairMatch(known: seq<PunctuationCharacter>, c: char, d: char)
    ensures PunctMatches(known, [c, d]) ==
              (if MarkOf(known, c).Some? then [MarkOf(known, c).value] else []) + PunctMatches(known, [d])
  {
    PunctMatchesCons(known, [c, d]);
    assert [c, d][1..] == [d];
  }

  /** A word in quotation marks, as in 'He said a short "hello"', draws no bar on
      either side; an unmatched opening quotation mark draws the minor bar. */
  lemma QuotationMarksDrawNoBar(t: Tables, prev: Segment<string>, isLast: bool)
    requires SeedLike(t.punctuation) && !HasTrailingDelimiter(prev)
    ensures LeadingButtons(t, prev, "\"", "\"") == []
    ensures TrailingBar(t, isLast, "\"", "\"") == []
    ensures LeadingButtons(t, prev, "\"", "") == [DelimiterButton("|", false)]
  {
    QuoteBothSides(t, prev, isLast);
    LoneQuote(t, prev);
  }

  lemma QuoteBothSides(t: Tables, prev: Segment<string>, isLast: bool)
    requires SeedLike(t.punctuation)
    ensures LeadingButtons(t, prev, "\"", "\"") == []
    ensures TrailingBar(t, isLast, "\"", "\"") == []
  {
    QuoteHighest(t.punctuation);
    QuoteAnswered(t, isLast);
  }

  lemma QuoteAnswered(t: Tables, isLast: bool)
    requires FindHighestPunctChar(t.punctuation, "\"") == Some(PunctuationCharacter('"', 1))
    ensures TrailingBar(t, isLast, "\"", "\"") == []
  {
    assert '"' in "\"";
  }

  lemma LoneQuote(t: Tables, prev: Segment<string>)
    requires SeedLike(t.punctuation) && !HasTrailingDelimiter(prev)
    ensures LeadingButtons(t, prev, "\"", "") == [DelimiterButton("|", false)]
  {
    QuoteHighest(t.punctuation);
  }

  /** The full stop draws the major bar after any token but the last, even inside
      quotation marks, where it outranks the quotation mark; the hyphen-minus draws none. */
  lemma FullStopDrawsMajorBar(t: Tables)
    requires SeedLike(t.punctuation)
    ensures TrailingBar(t, false, "", ".") == [DelimiterButton("||", false)]
    ensures TrailingBar(t, true, "", ".") == []
    ensures TrailingBar(t, false, "\"", ".\"") == [DelimiterButton("||", false)]
    ensures TrailingBar(t, false, "", "-") == []
  {
    FullStopAlone(t);
    FullStopQuoted(t);
    HighestOfOne(t.punctuation, '-');
  }

  lemma FullStopAlone(t: Tables)
    requires SeedLike(t.punctuation)
    ensures TrailingBar(t, false, "", ".") == [DelimiterButton("||", false)]
    ensures TrailingBar(t, true, "", ".") == []
  {
    HighestOfOne(t.punctuation, '.');
  }

  lemma FullStopQuoted(t: Tables)
    requires SeedLike(t.punctuation)
    ensures TrailingBar(t, false, "\"", ".\"") == [DelimiterButton("||", false)]
  {
    QuotedStopHighest(t.punctuation);
  }

  /** A dollar sign after the lemma moves into the lemma text and is read "dollar"
      after a singular expression and "dollars" otherwise; it draws no bar. */
  lemma DollarAfterLemma(t: Tables, isLast: bool, middle: string)
    requires SeedLikeTables(t)
    ensures ResolveTrailing(t, isLast, "", middle, "$") ==
              TrailingPart(middle + "$", "", [WordButton(if IsSingularExpression(middle) then "dollar" else "dollars")])
  {
    HighestOfOne(t.punctuation, '$');
    var d := "$";
    assert d[0] == '$' && d[1..] == "";
    assert middle + [d[0]] == middle + "$";
  }

  /** "hello." before another token shows "hello" with the major bar after it. */
  lemma ResolveHelloFullStop(t: Tables, prev: Segment<string>)
    requires SeedLikeTables(t)
    ensures ResolveToken(t, prev, "hello.", false)
         == Segment(Some(""), "hello", Some("."), [WordButton("hello"), DelimiterButton("||", false)], None)
  {
    var token := "hello.";
    var parts := Parts("", "hello", ".");
    DissectHello(token, parts);
    HelloLemma("");
    HelloFullStopEnds(t, prev);
    ResolveWordOf(t, prev, token, false, parts, LemmaPart("", "hello", [WordButton("hello")], None));
    TwoButtons(WordButton("hello"), DelimiterButton("||", false));
  }

  /** A word in quotation marks after another word shows no bar. */
  lemma ResolveQuotedHello(t: Tables, prev: Segment<string>)
    requires SeedLikeTables(t) && !HasTrailingDelimiter(prev)
    ensures ResolveToken(t, prev, "\"hello\"", false)
         == Segment(Some("\""), "hello", Some("\""), [WordButton("hello")], None)
  {
    var token := "\"hello\"";
    var parts := Parts("\"", "hello", "\"");
    DissectHello(token, parts);
    HelloLemma("\"");
    QuotedHelloEnds(t, prev);
    ResolveWordOf(t, prev, token, false, parts, LemmaPart("\"", "hello", [WordButton("hello")], None));
    OneButton(WordButton("hello"));
  }

  lemma HelloFullStopEnds(t: Tables, prev: Segment<string>)
    requires SeedLikeTables(t)
    ensures LeadingButtons(t, prev, "", ".") == []
    ensures ResolveTrailing(t, false, "", "hello", ".") == TrailingPart("hello", ".", [DelimiterButton("||", false)])
  {
    FullStopAlone(t);
    assert TrailingSign(t, "hello", ".") == TrailingPart("hello", ".", []);
  }

  lemma QuotedHelloEnds(t: Tables, prev: Segment<string>)
    requires SeedLikeTables(t) && !HasTrailingDelimiter(prev)
    ensures LeadingButtons(t, prev, "\"", "\"") == []
    ensures ResolveTrailing(t, false, "\"", "hello", "\"") == TrailingPart("hello", "\"", [])
  {
    QuoteBothSides(t, prev, false);
    assert TrailingSign(t, "hello", "\"") == TrailingPart("hello", "\"", []);
  }

  lemma OneButton(a: Button<string>)
    ensures [] + [a] + [] == [a]
  {
  }

  lemma TwoButtons(a: Button<string>, b: Button<string>)
    ensures [] + [a] + [b] == [a, b]
  {
  }

  /** How the two example tokens are cut. */
  lemma DissectHello(token: string, parts: Parts)
    requires (token, parts) == ("\"hello\"", Parts("\"", "hello", "\"")) || (token, parts) == ("hello.", Parts("", "hello", "."))
    ensures HasWordChar(token) && Dissect(token) == parts
  {
    DissectAround(token, parts.leading, parts.trailing);
  }

  /** "hello" with one non-word character, or none, on either side is cut around "hello". */
  lemma DissectAround(token: string, leading: string, trailing: string)
    requires |leading| <= 1 && |trailing| == 1
    requires leading != "" ==> !IsWordChar(leading[0])
    requires !IsWordChar(trailing[0])
    requires token == leading + "hello" + trailing
    ensures HasWordChar(token) && Dissect(token) == Parts(leading, "hello", trailing)
  {
    var parts := Parts(leading, "hello", trailing);
    var w := "hello";
    assert IsWordChar(w[0]) && IsWordChar(w[4]);
    assert token[|leading|] == w[0];
    assert !HasWordChar(leading) && !HasWordChar(trailing);
    DissectUnique(token, parts);
  }

  lemma HelloLemma(leading: string)
    ensures ResolveLemma(leading, "hello") == LemmaPart(leading, "hello", [WordButton("hello")], None)
  {
    var w := "hello";
    assert forall k :: 0 <= k < |w| ==> !IsDigit(w[k]);
  }

  /** The trailing part: nothing for no trailing characters; otherwise the currency
      sign first, then the bar. */
  function ResolveTrailing(t: Tables, isLast: bool, leading: string, middle: string, trailing: string): (p: TrailingPart)
    ensures p.middle + p.trailing == middle + trailing
    ensures isLast ==> WordButtonsOnly(p.buttons)
  {
    if trailing == "" then TrailingPart(middle, trailing, [])
    else
      var sign := TrailingSign(t, middle, trailing);
      var bar := TrailingBar(t, isLast, leading, trailing);
      TrailingPart(sign.middle, sign.trailing, sign.buttons + bar)
  }

  /** A token with a word character: cut into leading, core and trailing characters,
      then the leading delimiter, the lemma and the trailing part in that order. */
  function ResolveWord(t: Tables, prev: Segment<string>, token: string, isLast: bool): Segment<string>
    requires HasWordChar(token)
  {
    var parts := Dissect(token);
    var lead := LeadingButtons(t, prev, parts.leading, parts.trailing);
    var lp := ResolveLemma(parts.leading, parts.core);
    var tail := ResolveTrailing(t, isLast, lp.leading, lp.middle, parts.trailing);
    Segment(Some(lp.leading), tail.middle, Some(tail.trailing), lead + lp.buttons + tail.buttons, lp.readings)
  }

  /** One pass of the token loop; `prev` is the last finished segment and `isLast`
      says whether the token is the sentence's last. */
  function ResolveToken(t: Tables, prev: Segment<string>, token: string, isLast: bool): Segment<string> {
    if HasWordChar(token) then ResolveWord(t, prev, token, isLast) else ResolveNonWord(t, prev, token, isLast)
  }

  // ---------------------------------------------------------------------------
  // What a resolved token promises

  /** The texts a segment shows, put together. */
  function SegmentText<W>(s: Segment<W>): string {
    (if s.leading.Some? then s.leading.value else "") + s.lemmaText + (if s.trailing.Some? then s.trailing.value else "")
  }

  predicate HasWordButton<W>(s: Segment<W>) {
    exists i :: 0 <= i < |s.buttons| && s.buttons[i].WordButton?
  }

  /** Every character of the token stays on display: leading text, lemma text and
      trailing text put together give the token back. */
  lemma ResolveTokenText(t: Tables, prev: Segment<string>, token: string, isLast: bool)
    ensures SegmentText(ResolveToken(t, prev, token, isLast)) == token
  {
    if HasWordChar(token) {
      var parts := Dissect(token);
      DissectShape(token);
      var lp := ResolveLemma(parts.leading, parts.core);
      var tail := ResolveTrailing(t, isLast, lp.leading, lp.middle, parts.trailing);
      var r := ResolveToken(t, prev, token, isLast);
      assert SegmentText(r) == lp.leading + tail.middle + tail.trailing;
      Reassemble(parts.leading, parts.core, parts.trailing, lp.leading, lp.middle, tail.middle, tail.trailing);
    }
  }

  lemma Reassemble(a: string, b: string, c: string, l: string, m: string, x: string, y: string)
    requires l + m == a + b && x + y == m + c
    ensures l + x + y == a + b + c
  {
    calc {
      l + x + y;
      l + (x + y);
      l + (m + c);
      (l + m) + c;
    }
  }

  /** A token with a word character shows leading and trailing texts and at least
      one word button; a token without one shows just itself as the lemma. */
  lemma ResolveTokenShape(t: Tables, prev: Segment<string>, token: string, isLast: bool)
    ensures var r := ResolveToken(t, prev, token, isLast);
            && (HasWordChar(token) ==> r.leading.Some? && r.trailing.Some? && HasWordButton(r))
            && (!HasWordChar(token) ==> r.leading.None? && r.trailing.None? && r.lemmaText == token)
  {
    if HasWordChar(token) {
      var parts := Dissect(token);
      var lp := ResolveLemma(parts.leading, parts.core);
      var lead := LeadingButtons(t, prev, parts.leading, parts.trailing);
      var r := ResolveToken(t, prev, token, isLast);
      assert r.buttons[|lead|] == lp.buttons[0];
    }
  }

  /** The last token never ends in a delimiter, so no bar stands before the closing "/". */
  lemma ResolveTokenLast(t: Tables, prev: Segment<string>, token: string)
    ensures !HasTrailingDelimiter(ResolveToken(t, prev, token, true))
  {
    if HasWordChar(token) {
      var parts := Dissect(token);
      var lp := ResolveLemma(parts.leading, parts.core);
      var lead := LeadingButtons(t, prev, parts.leading, parts.trailing);
      var tail := ResolveTrailing(t, true, lp.leading, lp.middle, parts.trailing);
      var r := ResolveToken(t, prev, token, true);
      assert r.buttons == lead + lp.buttons + tail.buttons;
      if |tail.buttons| > 0 {
        assert r.buttons[|r.buttons| - 1] == tail.buttons[|tail.buttons| - 1];
      } else {
        assert r.buttons[|r.buttons| - 1] == lp.buttons[|lp.buttons| - 1];
      }
    }
  }

  /** A segment never opens with a delimiter when the previous one ends with one. */
  lemma ResolveTokenNoDoubleBar(t: Tables, prev: Segment<string>, token: string, isLast: bool)
    requires HasTrailingDelimiter(prev)
    ensures var r := ResolveToken(t, prev, token, isLast);
            |r.buttons| > 0 ==> r.buttons[0].WordButton?
  {
    if HasWordChar(token) {
      var parts := Dissect(token);
    }
  }

  /** The lemma of a numeral token reads back as the numeral: the year reading and
      the common reading both say the number, and a minus before a non-year
      numeral is read as "minus" and joins the lemma text. */
  lemma ResolveNumeral(leading: string, core: string)
    requires HasDigitLine(core) && ParseNumeral(core).Some?
    ensures var num := ParseNumeral(core).value;
            var n := num.integerPart;
            var l := ResolveLemma(leading, core);
            && (IsYear(leading, num) ==>
                  && l.buttons == WordButtons(YearKeys(n))
                  && l.readings == Some(Readings(YearKeys(n), NumeralKeys(n, "")))
                  && Value(YearWords(n)) == n && Value(NumeralWords(n, "")) == n)
            && (!IsYear(leading, num) && EndsWithMinus(leading) ==>
                  && l.buttons == [WordButton("minus")] + WordButtons(NumeralKeys(n, num.decimalPart))
                  && l.middle == [leading[|leading| - 1]] + core && l.readings.None?)
            && (!IsYear(leading, num) && !EndsWithMinus(leading) ==>
                  l.buttons == WordButtons(NumeralKeys(n, num.decimalPart)) && l.middle == core && l.readings.None?)
            && (num.decimalPart == "" ==> Value(NumeralWords(n, "")) == n)
  {
    var num := ParseNumeral(core).value;
    NumeralValue(num.integerPart);
    if IsYear(leading, num) {
      YearValue(num.integerPart);
    }
  }

  /** Only a year numeral keeps two readings. */
  lemma ResolveLemmaReadings(leading: string, core: string)
    ensures ResolveLemma(leading, core).readings.Some? <==>
              HasDigitLine(core) && ParseNumeral(core).Some? && IsYear(leading, ParseNumeral(core).value)
  {
  }

  /** A core without a digit, or one that does not parse as a numeral, is looked up
      as it is. */
  lemma ResolveLemmaWord(leading: string, core: string)
    requires !HasDigitLine(core) || ParseNumeral(core).None?
    ensures ResolveLemma(leading, core) == LemmaPart(leading, core, [WordButton(core)], None)
  {
  }

  /** The cases of a token without word characters. */
  lemma ResolveNonWordCases(t: Tables, prev: Segment<string>, token: string, isLast: bool)
    requires !HasWordChar(token)
    ensures var r := ResolveToken(t, prev, token, isLast);
            var punct := |token| == 1 && IsPunctuationCharacter(t.punctuation, token);
            var sign := |token| == 1 && IsCurrencyCharacter(t.currency, token);
            && r.lemmaText == token && r.readings.None?
            && (punct && !HasTrailingDelimiter(prev) && !isLast ==>
                  r.buttons == [DelimiterButton(BarText(GetPunctChar(t.punctuation, token[0]).value.delimiterMode), false)])
            && (punct && (HasTrailingDelimiter(prev) || isLast) ==> r.buttons == [])
            && (!punct && sign ==>
                  r.buttons == [WordButton(LemmaFor(GetCurrencyChar(t.currency, token[0]).value, IsSingularExpression(prev.lemmaText)))])
            && (!punct && !sign ==> r.buttons == [WordButton(token)])
  {
  }

  /** "81" reads "eighty one": two word buttons, no delimiter, nothing moved. */
  lemma ResolveEightyOne(t: Tables, prev: Segment<string>, isLast: bool)
    ensures ResolveToken(t, prev, "81", isLast)
         == Segment(Some(""), "81", Some(""), [WordButton("eighty"), WordButton("one")], None)
  {
    EightyOneDissects();
    EightyOneLemma();
    NoOuterText(t, prev, isLast, "81");
    ResolveWordOf(t, prev, "81", isLast, Parts("", "81", ""), LemmaPart("", "81", [WordButton("eighty"), WordButton("one")], None));
  }

  /** A word token assembled from its cut and its lemma part. */
  lemma ResolveWordOf(t: Tables, prev: Segment<string>, token: string, isLast: bool, parts: Parts, lp: LemmaPart)
    requires HasWordChar(token) && Dissect(token) == parts
    requires ResolveLemma(parts.leading, parts.core) == lp
    ensures var tail := ResolveTrailing(t, isLast, lp.leading, lp.middle, parts.trailing);
            var buttons := LeadingButtons(t, prev, parts.leading, parts.trailing) + lp.buttons + tail.buttons;
            ResolveToken(t, prev, token, isLast) == Segment(Some(lp.leading), tail.middle, Some(tail.trailing), buttons, lp.readings)
  {
  }

  /** Without leading or trailing characters there is no delimiter and nothing moves. */
  lemma NoOuterText(t: Tables, prev: Segment<string>, isLast: bool, middle: string)
    ensures LeadingButtons(t, prev, "", "") == []
    ensures ResolveTrailing(t, isLast, "", middle, "") == TrailingPart(middle, "", [])
  {
  }

  lemma EightyOneLemma()
    ensures ResolveLemma("", "81") == LemmaPart("", "81", [WordButton("eighty"), WordButton("one")], None)
  {
    EightyOneParses();
    EightyOneKeys();
    assert !IsYear("", Numeral(81, "")) && !EndsWithMinus("");
  }

  lemma EightyOneDissects()
    ensures HasWordChar("81") && Dissect("81") == Parts("", "81", "")
  {
    var s := "81";
    assert IsWordChar(s[0]) && IsWordChar(s[1]);
    DissectUnique(s, Parts("", s, ""));
  }

  lemma EightyOneParses()
    ensures HasDigitLine("81") && ParseNumeral("81") == Some(Numeral(81, ""))
  {
    var s := "81";
    assert DecimalString(81) == s;
    ParseNumeralRoundTrip(Numeral(81, ""));
    assert NumeralText(Numeral(81, "")) == s;
    assert IsDigit(s[0]);
  }

  lemma EightyOneKeys()
    ensures NumeralKeys(81, "") == ["eighty", "one"]
  {
    assert IntegerWords(81, 0) == IntegerWords(0, 1) + GroupWords(81, 0);
    assert GroupWords(81, 0) == [Tens(8), Small(1)];
  }

  // ---------------------------------------------------------------------------
  // The sentence

  /** A left-to-right pass that feeds each token, and whether it is the final one,
      to `step` together with the result for the token before it. */
  function Scan<S>(step: (S, string, bool) -> S, prev: S, tokens: seq<string>): (r: seq<S>)
    ensures |r| == |tokens|
    decreases |tokens|
  {
    if |tokens| == 0 then []
    else
      var s := step(prev, tokens[0], |tokens| == 1);
      [s] + Scan(step, s, tokens[1..])
  }

  /** Each result of the pass is its token stepped from the result before it. */
  lemma {:induction false} ScanAt<S>(step: (S, string, bool) -> S, prev: S, tokens: seq<string>, i: nat)
    requires i < |tokens|
    ensures var r := Scan(step, prev, tokens);
            r[i] == step(if i == 0 then prev else r[i - 1], tokens[i], i == |tokens| - 1)
    decreases i
  {
    if i > 0 {
      var s := step(prev, tokens[0], |tokens| == 1);
      var rest := Scan(step, s, tokens[1..]);
      assert Scan(step, prev, tokens) == [s] + rest;
      ScanAt(step, s, tokens[1..], i - 1);
      assert tokens[1..][i - 1] == tokens[i];
      ConsAt(Scan(step, prev, tokens), s, rest, i);
    }
  }

  /** The token loop from a given last finished segment. */
  function ResolveAll(t: Tables, prev: Segment<string>, tokens: seq<string>): (r: seq<Segment<string>>)
    ensures |r| == |tokens|
  {
    Scan((p: Segment<string>, token: string, last: bool) => ResolveToken(t, p, token, last), prev, tokens)
  }

  /** The segments of a sentence: the opening "/", one segment per token, the closing "/". */
  function Plan(t: Tables, tokens: seq<string>): seq<Segment<string>> {
    [EnclosingSegment()] + ResolveAll(t, EnclosingSegment(), tokens) + [EnclosingSegment()]
  }

  /** Each segment of the loop is the token resolved after the one before it, and
      only the final token is resolved as the last. */
  lemma ResolveAllAt(t: Tables, prev: Segment<string>, tokens: seq<string>, i: nat)
    requires i < |tokens|
    ensures var r := ResolveAll(t, prev, tokens);
            r[i] == ResolveToken(t, if i == 0 then prev else r[i - 1], tokens[i], i == |tokens| - 1)
  {
    ScanAt((p: Segment<string>, token: string, last: bool) => ResolveToken(t, p, token, last), prev, tokens, i);
  }

  /** The plan is framed by the two "/" segments, and segment i + 1 is token i
      resolved after segment i, as `getLastSegment` hands it to the loop. */
  lemma PlanShape(t: Tables, tokens: seq<string>)
    ensures var p := Plan(t, tokens);
            && |p| == |tokens| + 2
            && p[0] == EnclosingSegment() && p[|p| - 1] == EnclosingSegment()
            && forall i :: 0 <= i < |tokens| ==> p[i + 1] == ResolveToken(t, p[i], tokens[i], i == |tokens| - 1)
  {
    FramedScan((p: Segment<string>, token: string, last: bool) => ResolveToken(t, p, token, last), EnclosingSegment(), tokens);
  }

  /** A pass framed by its starting value on both sides: entry i + 1 is token i
      stepped from entry i. */
  lemma FramedScan<S>(step: (S, string, bool) -> S, e: S, tokens: seq<string>)
    ensures var p := [e] + Scan(step, e, tokens) + [e];
            && |p| == |tokens| + 2
            && p[0] == e && p[|p| - 1] == e
            && forall i :: 0 <= i < |tokens| ==> p[i + 1] == step(p[i], tokens[i], i == |tokens| - 1)
  {
    var r := Scan(step, e, tokens);
    var p := [e] + r + [e];
    forall i | 0 <= i < |tokens|
      ensures p[i + 1] == step(p[i], tokens[i], i == |tokens| - 1)
    {
      ScanAt(step, e, tokens, i);
      FramedAt(e, r, i);
      if i > 0 {
        FramedAt(e, r, i - 1);
      }
    }
  }

  lemma FramedAt<T>(e: T, r: seq<T>, i: nat)
    requires i < |r|
    ensures ([e] + r + [e])[i + 1] == r[i]
  {
  }

  /** Segment i + 1 of the plan shows token i in full. */
  lemma PlanTextAt(t: Tables, tokens: seq<string>, i: nat)
    requires i < |tokens|
    ensures SegmentText(Plan(t, tokens)[i + 1]) == tokens[i]
  {
    var r := ResolveAll(t, EnclosingSegment(), tokens);
    ResolveAllAt(t, EnclosingSegment(), tokens, i);
    FramedAt(EnclosingSegment(), r, i);
    ResolveTokenText(t, if i == 0 then EnclosingSegment() else r[i - 1], tokens[i], i == |tokens| - 1);
  }

  /** The segments between the two "/" show every token in full, and no bar stands
      right before the closing "/" or right after another delimiter. */
  lemma PlanProperties(t: Tables, tokens: seq<string>)
    requires |tokens| > 0
    ensures var p := Plan(t, tokens);
            && (forall i :: 0 <= i < |tokens| ==> SegmentText(p[i + 1]) == tokens[i])
            && !HasTrailingDelimiter(p[|tokens|])
            && (forall i :: 1 <= i <= |tokens| && HasTrailingDelimiter(p[i - 1]) && |p[i].buttons| > 0 ==>
                  p[i].buttons[0].WordButton?)
  {
    var p := Plan(t, tokens);
    PlanShape(t, tokens);
    forall i | 0 <= i < |tokens|
      ensures SegmentText(p[i + 1]) == tokens[i]
    {
      ResolveTokenText(t, p[i], tokens[i], i == |tokens| - 1);
    }
    ResolveTokenLast(t, p[|tokens| - 1], tokens[|tokens| - 1]);
    forall i | 1 <= i <= |tokens| && HasTrailingDelimiter(p[i - 1]) && |p[i].buttons| > 0
      ensures p[i].buttons[0].WordButton?
    {
      ResolveTokenNoDoubleBar(t, p[i - 1], tokens[i - 1], i - 1 == |tokens| - 1);
    }
  }
}
