/** `PunctuationCharacter`: a punctuation mark and the notational bar it calls for.

    The delimiter mode says which bar a transcription shows for the mark:
    0 for none, 1 for the minor bar "|", 2 for the major bar "||". The known
    marks are read from the database at start-up; the model takes that array as
    the parameter `known`. */
module Punctuation {
  import opened Wrappers
  import opened JavaText

  datatype PunctuationCharacter = PunctuationCharacter(character: char, delimiterMode: int)

  /** `getPunctChar(char)`: the first known mark equal to `c`. */
  function GetPunctChar(known: seq<PunctuationCharacter>, c: char): (r: Result<PunctuationCharacter>)
    ensures r.Success? <==> exists p :: p in known && p.character == c
    ensures r.Success? ==> r.value in known && r.value.character == c
    ensures r.Success? ==> exists i :: 0 <= i < |known| && known[i] == r.value
                                      && forall j :: 0 <= j < i ==> known[j].character != c
    ensures r.Failure? ==> r.error == NoSuchElement
  {
    Lookup(known, (p: PunctuationCharacter) => p.character == c, NoSuchElement)
  }

  /** `getPunctChar(String)`: the text must be a single Java character. */
  function GetPunctCharOfString(known: seq<PunctuationCharacter>, s: string): (r: Result<PunctuationCharacter>)
    ensures JavaLength(s) != 1 ==> r == Failure(IllegalArgument)
    ensures JavaLength(s) == 1 ==> |s| == 1 && r == GetPunctChar(known, s[0])
  {
    JavaLengthOne(s);
    if JavaLength(s) != 1 then Failure(IllegalArgument) else GetPunctChar(known, s[0])
  }

  /** `isPunctuationCharacter(char)`. */
  predicate IsPunctuationChar(known: seq<PunctuationCharacter>, c: char) {
    GetPunctChar(known, c).Success?
  }

  /** `isPunctuationCharacter(String)`: both exceptions are swallowed into `false`. */
  function IsPunctuationCharacter(known: seq<PunctuationCharacter>, s: string): (b: bool)
    ensures b <==> |s| == 1 && IsBmp(s[0]) && exists p :: p in known && p.character == s[0]
  {
    JavaLengthOne(s);
    GetPunctCharOfString(known, s).Success?
  }

  /** The `PunctuationCharacter(String, int)` constructor: the text must be a single Java character. */
  function NewPunctuationCharacter(s: string, delimiterMode: int): (r: Result<PunctuationCharacter>)
    ensures r.Success? <==> |s| == 1 && IsBmp(s[0])
    ensures r.Success? ==> r.value.character == s[0] && r.value.delimiterMode == delimiterMode
    ensures r.Failure? ==> r.error == IllegalArgument
  {
    JavaLengthOne(s);
    if JavaLength(s) != 1 then Failure(IllegalArgument)
    else Success(PunctuationCharacter(s[0], delimiterMode))
  }

  /** The bar text for a delimiter mode: "||" for 2, "|" for 1, nothing otherwise. */
  function BarText(mode: int): (t: string)
    ensures t == "" <==> mode != 1 && mode != 2
    ensures |t| == (if mode == 1 then 1 else if mode == 2 then 2 else 0)
    ensures forall i :: 0 <= i < |t| ==> t[i] == '|'
  {
    if mode == 2 then "||" else if mode == 1 then "|" else ""
  }

  /** The lookup returns the first registered mark carrying the character. */
  lemma GetPunctCharFirst(known: seq<PunctuationCharacter>, k: nat)
    requires k < |known|
    requires forall j :: 0 <= j < k ==> known[j].character != known[k].character
    ensures GetPunctChar(known, known[k].character) == Success(known[k])
  {
    var r := GetPunctChar(known, known[k].character);
    assert known[k] in known;
    var i :| 0 <= i < |known| && known[i] == r.value
             && forall j :: 0 <= j < i ==> known[j].character != known[k].character;
    assert i <= k;
  }
}
