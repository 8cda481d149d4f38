/** `TranscriptionSegment`: what the transcriber shows for one token.

    A segment has a leading text, the lemma text, a trailing text and a row of
    buttons. A button is either a word button holding lexicon data or a delimiter
    button showing "/", "|" or "||". The button data is a type parameter: while
    tokens are being resolved it is the lookup key, afterwards the lexicon entry.
    A digit year between 100 and 2000 also keeps its two readings, which the user
    can switch between. */
module Segments {
  import opened Wrappers
  import opened Punctuation

  datatype Button<W> =
    | WordButton(data: W)
    | DelimiterButton(text: string, enclosing: bool)

  /** The year reading and the common reading of a digit year. */
  datatype Readings<W> = Readings(year: seq<W>, common: seq<W>)

  datatype Segment<W> = Segment(
    leading: Option<string>,
    lemmaText: string,
    trailing: Option<string>,
    buttons: seq<Button<W>>,
    readings: Option<Readings<W>>)

  /** The default constructor: empty lemma text, unset leading and trailing text. */
  function NewSegment<W>(): (s: Segment<W>)
    ensures s.lemmaText == "" && s.leading.None? && s.trailing.None?
    ensures !HasTranscriptionButtons(s) && !HasTrailingDelimiter(s)
  {
    Segment(None, "", None, [], None)
  }

  /** The lemma constructor: only the lemma text is set. */
  function NewLemmaSegment<W>(text: string): (s: Segment<W>)
    ensures s.lemmaText == text && s.leading.None? && s.trailing.None?
    ensures !HasTranscriptionButtons(s)
  {
    Segment(None, text, None, [], None)
  }

  /** `hasTrailingDelimiter`: the last button is a delimiter button. */
  predicate HasTrailingDelimiter<W>(s: Segment<W>) {
    |s.buttons| > 0 && s.buttons[|s.buttons| - 1].DelimiterButton?
  }

  /** `hasTranscriptionButtons`: the button row is not empty. */
  predicate HasTranscriptionButtons<W>(s: Segment<W>) {
    |s.buttons| > 0
  }

  /** A segment ending in a delimiter has buttons, and appending a button decides
      whether it ends in a delimiter. */
  lemma TrailingDelimiterFacts<W>(s: Segment<W>, b: Button<W>)
    ensures HasTrailingDelimiter(s) ==> HasTranscriptionButtons(s)
    ensures HasTrailingDelimiter(AddButtons(s, [b])) <==> b.DelimiterButton?
    ensures HasTranscriptionButtons(AddButtons(s, [b]))
  {
  }

  /** Adding buttons to the end of the row. */
  function AddButtons<W>(s: Segment<W>, bs: seq<Button<W>>): (r: Segment<W>)
    ensures r.buttons == s.buttons + bs
    ensures r.leading == s.leading && r.lemmaText == s.lemmaText && r.trailing == s.trailing
    ensures r.readings == s.readings
  {
    s.(buttons := s.buttons + bs)
  }

  /** `setLeadingString`: only the leading text changes. */
  function SetLeading<W>(s: Segment<W>, text: string): (r: Segment<W>)
    ensures r.leading == Some(text)
    ensures r.lemmaText == s.lemmaText && r.trailing == s.trailing && r.buttons == s.buttons && r.readings == s.readings
  {
    s.(leading := Some(text))
  }

  /** `setTrailingString`: only the trailing text changes. */
  function SetTrailing<W>(s: Segment<W>, text: string): (r: Segment<W>)
    ensures r.trailing == Some(text)
    ensures r.lemmaText == s.lemmaText && r.leading == s.leading && r.buttons == s.buttons && r.readings == s.readings
  {
    s.(trailing := Some(text))
  }

  /** `newEnclosingDelimiterSegment`: an empty lemma and the enclosing "/" button. */
  function EnclosingSegment<W>(): (s: Segment<W>)
    ensures s.lemmaText == "" && s.buttons == [DelimiterButton("/", true)]
    ensures HasTrailingDelimiter(s)
  {
    Segment(None, "", None, [DelimiterButton("/", true)], None)
  }

  /** `newInnerDelimiterSegment`: the mark as lemma text and one inner delimiter
      button whose text depends on the mark's mode; the lookup of the mark fails
      as `getPunctChar(String)` does. */
  function InnerDelimiterSegment<W>(known: seq<PunctuationCharacter>, punctuation: string): (r: Result<Segment<W>>)
    ensures r.Success? <==> IsPunctuationCharacter(known, punctuation)
    ensures r.Success? ==>
              && r.value.lemmaText == punctuation
              && r.value.leading.None? && r.value.trailing.None?
              && r.value.buttons == [DelimiterButton(BarText(GetPunctChar(known, punctuation[0]).value.delimiterMode), false)]
              && HasTrailingDelimiter(r.value)
  {
    match GetPunctCharOfString(known, punctuation)
    case Failure(err) => Failure(err)
    case Success(p) => Success(Segment(None, punctuation, None, [DelimiterButton(BarText(p.delimiterMode), false)], None))
  }

  /** Applies `f` to every element. */
  function MapSeq<A, B>(s: seq<A>, f: A -> B): (r: seq<B>)
    ensures |r| == |s| && forall i :: 0 <= i < |s| ==> r[i] == f(s[i])
  {
    seq(|s|, i requires 0 <= i < |s| => f(s[i]))
  }

  function MapButton<A, B>(b: Button<A>, f: A -> B): Button<B> {
    match b
    case WordButton(d) => WordButton(f(d))
    case DelimiterButton(text, enclosing) => DelimiterButton(text, enclosing)
  }

  /** Replaces the data of every shown word button by `f` of it and the data of the
      stored readings by `g` of it; texts, delimiters and the order of the buttons stay. */
  function MapSegment<A, B>(s: Segment<A>, f: A -> B, g: A -> B): (r: Segment<B>)
    ensures r.leading == s.leading && r.lemmaText == s.lemmaText && r.trailing == s.trailing
    ensures |r.buttons| == |s.buttons|
    ensures forall j :: 0 <= j < |s.buttons| ==>
              && (r.buttons[j].WordButton? <==> s.buttons[j].WordButton?)
              && (s.buttons[j].WordButton? ==> r.buttons[j].data == f(s.buttons[j].data))
              && (s.buttons[j].DelimiterButton? ==> r.buttons[j] == DelimiterButton(s.buttons[j].text, s.buttons[j].enclosing))
    ensures r.readings.Some? <==> s.readings.Some?
    ensures s.readings.Some? ==>
              r.readings.value == Readings(MapSeq(s.readings.value.year, g), MapSeq(s.readings.value.common, g))
    ensures HasTrailingDelimiter(r) <==> HasTrailingDelimiter(s)
  {
    var readings := match s.readings
      case None => None
      case Some(rd) => Some(Readings(MapSeq(rd.year, g), MapSeq(rd.common, g)));
    Segment(s.leading, s.lemmaText, s.trailing, MapSeq(s.buttons, (b: Button<A>) => MapButton(b, f)), readings)
  }
}
