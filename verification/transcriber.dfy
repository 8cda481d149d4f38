/** `transcribe`: a sentence in, the finished and post-processed segments out.

    The token loop decides every segment from the input, the registries and the
    segment before it, never from what the database returns; so the model first
    builds the segments with lookup keys in the word buttons (the plan), then
    replaces each key by its database entry, then runs the post-pass. */
module Transcription {
  import opened Wrappers
  import opened JavaText
  import opened Entries
  import opened Segments
  import opened Dissection
  import opened Resolver
  import opened PostProcessing

  /** `queryDatabase` as the transcriber uses it: every lookup key gives an entry,
      an empty one when the database has no row for it. */
  type Lexicon = string -> Entry

  /** Every `new WordButton(queryDatabase(key))`, for the shown buttons and the stored readings alike. */
  function Materialise(lexicon: Lexicon, plan: seq<Segment<string>>): (r: seq<Segment<Entry>>)
    ensures |r| == |plan|
  {
    MapSeq(plan, (s: Segment<string>) => MapSegment(s, lexicon, lexicon))
  }

  lemma MaterialiseAt(lexicon: Lexicon, plan: seq<Segment<string>>, i: nat)
    requires i < |plan|
    ensures Materialise(lexicon, plan)[i] == MapSegment(plan[i], lexicon, lexicon)
  {
  }

  /** `transcribe(input)` followed by `doPostProcessing`. */
  function Transcribe(rd: Reading, t: Tables, st: Settings, lexicon: Lexicon, input: string): PostResult {
    PostProcess(rd, st, Materialise(lexicon, Plan(t, Tokenise(input))))
  }

  /** The finished segments for a plan. */
  function Finish(rd: Reading, st: Settings, lexicon: Lexicon, plan: seq<Segment<string>>): (r: seq<Segment<Marked>>)
    ensures |r| == |plan|
  {
    PostProcess(rd, st, Materialise(lexicon, plan)).segments
  }

  /** Finished segment i is planned segment i with entries for keys: same texts,
      same button kinds, same delimiters. */
  lemma FinishAt(rd: Reading, st: Settings, lexicon: Lexicon, plan: seq<Segment<string>>, i: nat)
    requires i < |plan|
    ensures var r := Finish(rd, st, lexicon, plan);
            && r[i].leading == plan[i].leading && r[i].lemmaText == plan[i].lemmaText && r[i].trailing == plan[i].trailing
            && SegmentText(r[i]) == SegmentText(plan[i])
            && (HasTrailingDelimiter(r[i]) <==> HasTrailingDelimiter(plan[i]))
            && |r[i].buttons| == |plan[i].buttons|
            && (forall j :: 0 <= j < |plan[i].buttons| ==>
                  && (r[i].buttons[j].WordButton? <==> plan[i].buttons[j].WordButton?)
                  && (plan[i].buttons[j].DelimiterButton? ==>
                        r[i].buttons[j] == DelimiterButton(plan[i].buttons[j].text, plan[i].buttons[j].enclosing)))
  {
    var m := Materialise(lexicon, plan);
    PostProcessAt(rd, st, m, i);
    MaterialiseAt(lexicon, plan, i);
  }

  /** A "/" segment of the plan is a "/" segment of the output. */
  lemma FinishEnclosing(rd: Reading, st: Settings, lexicon: Lexicon, plan: seq<Segment<string>>, i: nat)
    requires i < |plan| && plan[i] == EnclosingSegment()
    ensures var r := Finish(rd, st, lexicon, plan);
            r[i].lemmaText == "" && r[i].buttons == [DelimiterButton("/", true)]
  {
    var r := Finish(rd, st, lexicon, plan);
    FinishAt(rd, st, lexicon, plan, i);
    var b := plan[i].buttons;
    assert |b| == 1 && b[0] == DelimiterButton("/", true);
    assert r[i].buttons[0] == DelimiterButton("/", true);
  }

  /** The finished segments between the frames show the texts the plan shows. */
  lemma FinishTexts(rd: Reading, st: Settings, lexicon: Lexicon, plan: seq<Segment<string>>, tokens: seq<string>)
    requires |plan| == |tokens| + 2
    requires forall i :: 0 <= i < |tokens| ==> SegmentText(plan[i + 1]) == tokens[i]
    ensures var r := Finish(rd, st, lexicon, plan);
            && (forall i :: 0 <= i < |tokens| ==> SegmentText(r[i + 1]) == tokens[i])
            && MapSeq(r[1..|r| - 1], (s: Segment<Marked>) => SegmentText(s)) == tokens
  {
    var r := Finish(rd, st, lexicon, plan);
    forall i | 0 <= i < |tokens|
      ensures SegmentText(r[i + 1]) == tokens[i]
    {
      FinishAt(rd, st, lexicon, plan, i + 1);
    }
    MiddleTexts(r, tokens);
  }

  /** The texts of the segments between the frames, read off one by one. */
  lemma MiddleTexts(r: seq<Segment<Marked>>, tokens: seq<string>)
    requires |r| == |tokens| + 2
    requires forall i :: 0 <= i < |tokens| ==> SegmentText(r[i + 1]) == tokens[i]
    ensures MapSeq(r[1..|r| - 1], (s: Segment<Marked>) => SegmentText(s)) == tokens
  {
    var middle := r[1..|r| - 1];
    var texts := MapSeq(middle, (s: Segment<Marked>) => SegmentText(s));
    forall i | 0 <= i < |tokens|
      ensures texts[i] == tokens[i]
    {
      assert middle[i] == r[i + 1];
    }
  }

  /** Bars the plan avoids stay avoided. */
  lemma FinishBars(rd: Reading, st: Settings, lexicon: Lexicon, plan: seq<Segment<string>>)
    requires |plan| >= 2 && !HasTrailingDelimiter(plan[|plan| - 2])
    requires forall i :: 1 <= i < |plan| - 1 && HasTrailingDelimiter(plan[i - 1]) && |plan[i].buttons| > 0 ==>
               plan[i].buttons[0].WordButton?
    ensures var r := Finish(rd, st, lexicon, plan);
            && !HasTrailingDelimiter(r[|r| - 2])
            && forall i :: 1 <= i < |r| - 1 && HasTrailingDelimiter(r[i - 1]) && |r[i].buttons| > 0 ==>
                 r[i].buttons[0].WordButton?
  {
    var r := Finish(rd, st, lexicon, plan);
    forall i | 0 <= i < |plan|
      ensures SameKinds(plan[i], r[i])
    {
      FinishKinds(rd, st, lexicon, plan, i);
    }
    BarsCarry(plan, r);
  }

  /** Two segments end in a delimiter and start with a word button alike. */
  predicate SameKinds<A, B>(a: Segment<A>, b: Segment<B>) {
    && (HasTrailingDelimiter(b) <==> HasTrailingDelimiter(a))
    && |b.buttons| == |a.buttons|
    && (|a.buttons| > 0 ==> (b.buttons[0].WordButton? <==> a.buttons[0].WordButton?))
  }

  /** The bar rules carry over between segment lists of the same kinds. */
  lemma BarsCarry<A, B>(plan: seq<Segment<A>>, r: seq<Segment<B>>)
    requires |r| == |plan| >= 2 && forall i :: 0 <= i < |plan| ==> SameKinds(plan[i], r[i])
    requires !HasTrailingDelimiter(plan[|plan| - 2])
    requires forall i :: 1 <= i < |plan| - 1 && HasTrailingDelimiter(plan[i - 1]) && |plan[i].buttons| > 0 ==>
               plan[i].buttons[0].WordButton?
    ensures !HasTrailingDelimiter(r[|r| - 2])
    ensures forall i :: 1 <= i < |r| - 1 && HasTrailingDelimiter(r[i - 1]) && |r[i].buttons| > 0 ==>
              r[i].buttons[0].WordButton?
  {
    assert SameKinds(plan[|plan| - 2], r[|r| - 2]);
    forall i | 1 <= i < |r| - 1 && HasTrailingDelimiter(r[i - 1]) && |r[i].buttons| > 0
      ensures r[i].buttons[0].WordButton?
    {
      assert SameKinds(plan[i - 1], r[i - 1]) && SameKinds(plan[i], r[i]);
    }
  }

  /** Finished segment i ends in a delimiter and starts with a word button exactly
      when planned segment i does. */
  lemma FinishKinds(rd: Reading, st: Settings, lexicon: Lexicon, plan: seq<Segment<string>>, i: nat)
    requires i < |plan|
    ensures SameKinds(plan[i], Finish(rd, st, lexicon, plan)[i])
  {
    FinishAt(rd, st, lexicon, plan, i);
  }

  /** The output is the opening "/", one segment per token, the closing "/"; a blank
      input still gives one (empty) token. */
  lemma TranscribeFraming(rd: Reading, t: Tables, st: Settings, lexicon: Lexicon, input: string)
    ensures var r := Transcribe(rd, t, st, lexicon, input).segments;
            && |r| == |Tokenise(input)| + 2
            && r[0].lemmaText == "" && r[0].buttons == [DelimiterButton("/", true)]
            && r[|r| - 1].lemmaText == "" && r[|r| - 1].buttons == [DelimiterButton("/", true)]
            && (Trim(input) == "" ==> |r| == 3)
  {
    var plan := Plan(t, Tokenise(input));
    TokeniseShape(input);
    FinishEnclosing(rd, st, lexicon, plan, 0);
    FinishEnclosing(rd, st, lexicon, plan, |plan| - 1);
  }

  /** Segment i + 1 shows token i in full, and the shown texts together are the input
      without its whitespace: no character is lost, added or reordered. */
  lemma TranscribeShowsInput(rd: Reading, t: Tables, st: Settings, lexicon: Lexicon, input: string)
    requires Trim(input) != ""
    ensures var tokens := Tokenise(input);
            var r := Transcribe(rd, t, st, lexicon, input).segments;
            && |r| == |tokens| + 2
            && ProperTokens(tokens)
            && (forall i :: 0 <= i < |tokens| ==> SegmentText(r[i + 1]) == tokens[i])
            && Concat(MapSeq(r[1..|r| - 1], (s: Segment<Marked>) => SegmentText(s))) == RemoveWhitespace(Trim(input))
  {
    var tokens := Tokenise(input);
    var plan := Plan(t, tokens);
    TokeniseShape(input);
    forall i | 0 <= i < |tokens|
      ensures SegmentText(plan[i + 1]) == tokens[i]
    {
      PlanTextAt(t, tokens, i);
    }
    FinishTexts(rd, st, lexicon, plan, tokens);
  }

  /** No bar stands before the closing "/", and no bar follows a segment that already
      ends in a delimiter. */
  lemma TranscribeBars(rd: Reading, t: Tables, st: Settings, lexicon: Lexicon, input: string)
    ensures var r := Transcribe(rd, t, st, lexicon, input).segments;
            && !HasTrailingDelimiter(r[|r| - 2])
            && forall i :: 1 <= i < |r| - 1 && HasTrailingDelimiter(r[i - 1]) && |r[i].buttons| > 0 ==>
                 r[i].buttons[0].WordButton?
  {
    var tokens := Tokenise(input);
    TokeniseShape(input);
    PlanProperties(t, tokens);
    FinishBars(rd, st, lexicon, Plan(t, tokens));
  }

  /** Every shown word button holds the database entry of the key the token loop
      chose for it, with only the selection of "the" possibly changed. */
  lemma TranscribeEntries(rd: Reading, t: Tables, st: Settings, lexicon: Lexicon, input: string, i: nat, j: nat)
    requires var p := Plan(t, Tokenise(input)); i < |p| && j < |p[i].buttons|
    ensures var p := Plan(t, Tokenise(input));
            var r := Transcribe(rd, t, st, lexicon, input).segments;
            && i < |r| && j < |r[i].buttons|
            && (r[i].buttons[j].WordButton? <==> p[i].buttons[j].WordButton?)
            && (p[i].buttons[j].WordButton? ==>
                  var e := lexicon(p[i].buttons[j].data);
                  && r[i].buttons[j].data.entry.word == e.word
                  && r[i].buttons[j].data.entry.matched == e.matched
                  && (e.word != "the" ==> r[i].buttons[j].data.entry == e))
  {
    var p := Plan(t, Tokenise(input));
    var m := Materialise(lexicon, p);
    PostProcessKeepsSegments(rd, st, m, i, j);
    MaterialiseAt(lexicon, p, i);
  }
}
