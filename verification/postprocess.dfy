/** `doPostProcessing`: the pass over the finished segments that marks word class
    conflicts, adjusts the transcription of "the" to the sound that follows it, and
    decides which word button receives the keyboard focus.

    Java queues every effect on the UI thread; the model computes the effects from
    the segments as they stand when the pass starts, which is what the queued effects
    see, and returns them as data: each word button carries its entry, possibly with
    a new selection, and a conflict flag. */
module PostProcessing {
  import opened Wrappers
  import opened JavaText
  import opened WordClasses
  import opened Varieties
  import opened TranscriptionItems
  import opened Entries
  import opened Segments

  /** The two registry lookups the rule for "the" makes: the "det" word class and the
      preferred variety. The registries do not change during the pass, so each
      lookup gives the same answer for every "the" and is made once here. */
  datatype Settings = Settings(det: Result<WordClass>, preferred: Result<Variety>)

  /** `WordClass.getWordClass("det")` and `Variety.getPreferredVariety()`. */
  function LookUpSettings(wordClasses: seq<WordClass>, varieties: seq<Variety>, setting: string): Settings {
    Settings(GetWordClassByName(wordClasses, "det"), GetPreferredVariety(varieties, setting))
  }

  /** A word button after the pass: its entry and whether it is styled as a conflict. */
  datatype Marked = Marked(entry: Entry, conflict: bool)

  /** A button position: segment index, then index in the segment's button row. */
  datatype Position = Position(segment: nat, button: nat)

  datatype PostResult = PostResult(segments: seq<Segment<Marked>>, focus: Option<Position>)

  /** `isVocalicSound`: the phonetic symbols the pass treats as vowels. */
  predicate IsVocalicSound(c: char) {
    || c == 'a' || c == 'ɑ' || c == 'ʌ' || c == 'æ' || c == 'ɜ' || c == 'e' || c == 'ə'
    || c == 'i' || c == 'ɪ' || c == 'ɔ' || c == 'ɒ' || c == 'u' || c == 'ʊ'
  }

  /** The phonetic string of the entry's selected item, "" when there is none. */
  function SelectedPhonetic(e: Entry): string {
    if e.selected.Some? && e.selected.value.phonetic.Some? then e.selected.value.phonetic.value else ""
  }

  /** A button the pass reads the next sound from: a word button with a non-empty entry. */
  predicate GivesPhonetic(b: Button<Entry>) {
    b.WordButton? && !IsEmpty(b.data)
  }

  // ---------------------------------------------------------------------------
  // The sound after "the"

  /** The next sound as the loop at Transcriber.java:735-740 reads it: every
      non-empty word button overwrites the previous value, so the LAST one wins. */
  function NextPhoneticAsWritten(bs: seq<Button<Entry>>): string
  {
    if |bs| == 0 then ""
    else if GivesPhonetic(bs[|bs| - 1]) then SelectedPhonetic(bs[|bs| - 1].data)
    else NextPhoneticAsWritten(bs[..|bs| - 1])
  }

  /** What the loop leaves behind: "" when no button gives a sound, otherwise the
      sound of the last button that does. */
  lemma {:induction false} NextPhoneticAsWrittenLast(bs: seq<Button<Entry>>)
    ensures (forall j :: 0 <= j < |bs| ==> !GivesPhonetic(bs[j])) ==> NextPhoneticAsWritten(bs) == ""
    ensures forall j :: LastGiver(bs, j) ==> NextPhoneticAsWritten(bs) == SelectedPhonetic(bs[j].data)
  {
    if |bs| == 0 {
    } else if GivesPhonetic(bs[|bs| - 1]) {
      forall j | LastGiver(bs, j) ensures j == |bs| - 1 {
      }
    } else {
      var pre := bs[..|bs| - 1];
      NextPhoneticAsWrittenLast(pre);
      forall j | LastGiver(bs, j) ensures NextPhoneticAsWritten(bs) == SelectedPhonetic(bs[j].data) {
        LastGiverOfPrefix(bs, j);
      }
      if forall j :: 0 <= j < |bs| ==> !GivesPhonetic(bs[j]) {
        assert forall k :: 0 <= k < |pre| ==> pre[k] == bs[k];
      }
    }
  }

  /** `bs[j]` gives a sound and no later button of `bs` does. */
  predicate LastGiver(bs: seq<Button<Entry>>, j: int)
  {
    0 <= j < |bs| && GivesPhonetic(bs[j]) && forall k :: j < k < |bs| ==> !GivesPhonetic(bs[k])
  }

  /** Dropping a trailing button that gives no sound keeps the last giver. */
  lemma LastGiverOfPrefix(bs: seq<Button<Entry>>, j: int)
    requires LastGiver(bs, j) && !GivesPhonetic(bs[|bs| - 1])
    ensures j < |bs| - 1 && LastGiver(bs[..|bs| - 1], j) && bs[..|bs| - 1][j] == bs[j]
  {
  }

  /** The next sound as the pass means it ("the first phonetic string following this
      item"): that of the FIRST non-empty word button of the next segment. */
  function NextPhonetic(bs: seq<Button<Entry>>): (r: string)
    ensures (forall j :: 0 <= j < |bs| ==> !GivesPhonetic(bs[j])) ==> r == ""
    ensures forall j :: 0 <= j < |bs| && GivesPhonetic(bs[j]) && (forall k :: 0 <= k < j ==> !GivesPhonetic(bs[k])) ==>
              r == SelectedPhonetic(bs[j].data)
  {
    match FindFirst(bs, GivesPhonetic)
    case None => ""
    case Some(first) =>
      assert GivesPhonetic(bs[first]);
      assert forall k :: 0 <= k < first ==> !GivesPhonetic(bs[k]);
      forall j | 0 <= j < |bs| && GivesPhonetic(bs[j]) && (forall k :: 0 <= k < j ==> !GivesPhonetic(bs[k]))
        ensures j == first
      {
      }
      SelectedPhonetic(bs[first].data)
  }

  /** Both readings agree when the next segment has at most one such button. */
  lemma NextPhoneticSingle(bs: seq<Button<Entry>>, j: nat)
    requires j < |bs| && GivesPhonetic(bs[j])
    requires forall k :: 0 <= k < |bs| && k != j ==> !GivesPhonetic(bs[k])
    ensures NextPhoneticAsWritten(bs) == NextPhonetic(bs) == SelectedPhonetic(bs[j].data)
  {
    NextPhoneticAsWrittenLast(bs);
  }

  // ---------------------------------------------------------------------------
  // The transcription of "the"

  /** The items of the entry under the "det" word class and the preferred variety;
      each of the three lookups fails with NoSuchElement as in Java. */
  function DetItems(st: Settings, e: Entry): (r: Result<seq<Item>>)
    ensures r.Success? <==>
              && st.det.Success? && st.preferred.Success?
              && GetTranscriptionItems(e, st.det.value, st.preferred.value).Success?
    ensures r.Success? ==> forall it :: it in r.value ==> it in AllItems(e.matched)
  {
    match st.det
    case Failure(err) => Failure(err)
    case Success(det) =>
      match st.preferred
      case Failure(err) => Failure(err)
      case Success(pref) =>
        var r := GetTranscriptionItems(e, det, pref);
        if r.Success? then
          assert forall it :: it in r.value ==> it in AllItems(e.matched) by {
            forall it | it in r.value
              ensures it in AllItems(e.matched)
            {
              InAllItems(e.matched, det, pref, it);
            }
          }
          r
        else r
  }

  predicate WeakEndingIn(it: Item, suffix: string) {
    IsWeak(it) && it.phonetic.Some? && EndsWith(it.phonetic.value, suffix)
  }

  /** The first weak form whose phonetic string ends in `suffix`. */
  function FirstWeakEndingIn(items: seq<Item>, suffix: string): (r: Option<Item>)
    ensures r.Some? ==> exists i :: 0 <= i < |items| && items[i] == r.value && WeakEndingIn(items[i], suffix)
                                    && forall k :: 0 <= k < i ==> !WeakEndingIn(items[k], suffix)
    ensures r.None? <==> forall i :: 0 <= i < |items| ==> !WeakEndingIn(items[i], suffix)
  {
    match FindFirst(items, (it: Item) => WeakEndingIn(it, suffix))
    case None => None
    case Some(i) => Some(items[i])
  }

  /** The weak form chosen before the next sound: the "i" form before a vowel when
      there is one, the schwa form otherwise. */
  function TheSelection(items: seq<Item>, next: string): (r: Option<Item>)
    requires next != ""
    ensures r.Some? ==> r.value in items && IsWeak(r.value)
    ensures IsVocalicSound(next[0]) && FirstWeakEndingIn(items, "i").Some? ==>
              r.Some? && WeakEndingIn(r.value, "i") && r == FirstWeakEndingIn(items, "i")
    ensures IsVocalicSound(next[0]) && FirstWeakEndingIn(items, "i").None? ==> r == FirstWeakEndingIn(items, "ə")
    ensures !IsVocalicSound(next[0]) ==> r == FirstWeakEndingIn(items, "ə")
    ensures r.None? <==>
              && (forall i :: 0 <= i < |items| ==> !WeakEndingIn(items[i], "ə"))
              && (!IsVocalicSound(next[0]) || forall i :: 0 <= i < |items| ==> !WeakEndingIn(items[i], "i"))
  {
    var schwa := FirstWeakEndingIn(items, "ə");
    var front := FirstWeakEndingIn(items, "i");
    if IsVocalicSound(next[0]) && front.Some? then front else schwa
  }

  /** What the pass does to a "the" button. */
  datatype TheOutcome = Untouched | Flagged | Selects(item: Item)

  /** The rule for "the": a failed lookup only logs; no next sound or no det items
      is a conflict; otherwise the chosen weak form, if any, is selected. */
  function TheRule(st: Settings, e: Entry, next: string): (o: TheOutcome)
    ensures DetItems(st, e).Failure? ==> o.Untouched?
    ensures o.Flagged? <==> DetItems(st, e).Success? && (next == "" || |DetItems(st, e).value| == 0)
    ensures o.Selects? ==> o.item in AllItems(e.matched) && IsWeak(o.item)
    ensures o.Selects? ==> next != "" && o.item in DetItems(st, e).value
  {
    match DetItems(st, e)
    case Failure(_) => Untouched
    case Success(items) =>
      if next == "" || |items| == 0 then Flagged
      else match TheSelection(items, next)
        case None => Untouched
        case Some(it) => Selects(it)
  }

  /** One word button after the pass. */
  function MarkEntry(st: Settings, e: Entry, next: string): (m: Marked)
    ensures m.entry.word == e.word && m.entry.matched == e.matched
    ensures m.conflict <==> MatchesMultipleWordClasses(e) || (e.word == "the" && TheRule(st, e, next).Flagged?)
    ensures e.word != "the" ==> m.entry == e
    ensures Valid(e) ==> Valid(m.entry)
  {
    var o := if e.word == "the" then TheRule(st, e, next) else Untouched;
    var entry := if o.Selects? then OnItemSelected(e, o.item) else e;
    Marked(entry, MatchesMultipleWordClasses(e) || o.Flagged?)
  }

  // ---------------------------------------------------------------------------
  // The pass

  /** Which button of the next segment gives the next sound: the last one, as the
      loop at Transcriber.java:735-740 is written, or the first one, as its comment
      intends. The two differ only when the next segment has several such buttons. */
  datatype Reading = AsWritten | Intended

  function NextFor(rd: Reading, bs: seq<Button<Entry>>): string {
    match rd
    case AsWritten => NextPhoneticAsWritten(bs)
    case Intended => NextPhonetic(bs)
  }

  /** The next sound for segment i; the closing "/" segment has no successor and no word buttons. */
  function NextOf(rd: Reading, segs: seq<Segment<Entry>>, i: nat): string {
    if i + 1 < |segs| then NextFor(rd, segs[i + 1].buttons) else ""
  }

  /** Marks the shown buttons of a segment; the stored alternative reading is not
      shown, so the pass does not touch it. */
  function MarkSegment(st: Settings, s: Segment<Entry>, next: string): Segment<Marked> {
    MapSegment(s, (e: Entry) => MarkEntry(st, e, next), (e: Entry) => Marked(e, false))
  }

  predicate IsWordButton(b: Button<Marked>) {
    b.WordButton?
  }

  predicate IsConflictButton(b: Button<Marked>) {
    b.WordButton? && b.data.conflict
  }

  /** The first button at segment `from` or later satisfying `p`, in display order. */
  function FirstWhere(segs: seq<Segment<Marked>>, p: Button<Marked> -> bool, from: nat): (r: Option<Position>)
    ensures r.Some? ==>
              && from <= r.value.segment < |segs| && r.value.button < |segs[r.value.segment].buttons|
              && p(segs[r.value.segment].buttons[r.value.button])
              && (forall i, j :: from <= i < r.value.segment && 0 <= j < |segs[i].buttons| ==> !p(segs[i].buttons[j]))
              && (forall j :: 0 <= j < r.value.button ==> !p(segs[r.value.segment].buttons[j]))
    ensures r.None? <==> forall i, j :: from <= i < |segs| && 0 <= j < |segs[i].buttons| ==> !p(segs[i].buttons[j])
    decreases |segs| - from
  {
    if from >= |segs| then None
    else match FindFirst(segs[from].buttons, p)
      case Some(j) => Some(Position(from, j))
      case None => FirstWhere(segs, p, from + 1)
  }

  /** The button that ends up focused: the first conflict, whose focus request is
      queued after the one for the first word button; failing that, the first word button. */
  function Focus(segs: seq<Segment<Marked>>): Option<Position> {
    match FirstWhere(segs, IsConflictButton, 0)
    case Some(p) => Some(p)
    case None => FirstWhere(segs, IsWordButton, 0)
  }

  /** `doPostProcessing` on the finished segments, reading the next sound as `rd` says. */
  function PostProcess(rd: Reading, st: Settings, segs: seq<Segment<Entry>>): (r: PostResult)
    ensures |r.segments| == |segs|
  {
    var marked := seq(|segs|, i requires 0 <= i < |segs| => MarkSegment(st, segs[i], NextOf(rd, segs, i)));
    PostResult(marked, Focus(marked))
  }

  /** Segment i after the pass is segment i with its shown buttons marked, reading
      the next sound from segment i + 1 as it was before the pass. */
  lemma PostProcessAt(rd: Reading, st: Settings, segs: seq<Segment<Entry>>, i: nat)
    requires i < |segs|
    ensures PostProcess(rd, st, segs).segments[i] == MarkSegment(st, segs[i], NextOf(rd, segs, i))
  {
  }

  // ---------------------------------------------------------------------------
  // Properties of the pass

  /** The pass changes no text, no delimiter and no button order; an entry keeps its
      lemma and its items, and only the entry of "the" may change its selection. */
  lemma PostProcessKeepsSegments(rd: Reading, st: Settings, segs: seq<Segment<Entry>>, i: nat, j: nat)
    requires i < |segs| && j < |segs[i].buttons|
    ensures var s := PostProcess(rd, st, segs).segments[i];
            && s.leading == segs[i].leading && s.lemmaText == segs[i].lemmaText && s.trailing == segs[i].trailing
            && |s.buttons| == |segs[i].buttons|
            && (s.buttons[j].WordButton? <==> segs[i].buttons[j].WordButton?)
            && (segs[i].buttons[j].DelimiterButton? ==> s.buttons[j] == DelimiterButton(segs[i].buttons[j].text, segs[i].buttons[j].enclosing))
            && (segs[i].buttons[j].WordButton? ==>
                  && s.buttons[j].data.entry.word == segs[i].buttons[j].data.word
                  && s.buttons[j].data.entry.matched == segs[i].buttons[j].data.matched
                  && (segs[i].buttons[j].data.word != "the" ==> s.buttons[j].data.entry == segs[i].buttons[j].data))
  {
    PostProcessAt(rd, st, segs, i);
  }

  /** A word button is styled as a conflict exactly when its entry spans several word
      classes, or it is "the" and the pass could not choose its transcription. */
  lemma PostProcessConflict(rd: Reading, st: Settings, segs: seq<Segment<Entry>>, i: nat, j: nat)
    requires i < |segs| && j < |segs[i].buttons| && segs[i].buttons[j].WordButton?
    ensures var e := segs[i].buttons[j].data;
            var items := DetItems(st, e);
            PostProcess(rd, st, segs).segments[i].buttons[j].data.conflict <==>
              || MatchesMultipleWordClasses(e)
              || (e.word == "the" && items.Success? && (NextOf(rd, segs, i) == "" || |items.value| == 0))
  {
    PostProcessAt(rd, st, segs, i);
  }

  /** When "the" is followed by a sound and has det items, it selects the "i" weak form
      before a vowel and the schwa weak form otherwise, when such a form exists; when
      the det class or the preferred variety is missing, nothing changes. */
  lemma PostProcessThe(rd: Reading, st: Settings, segs: seq<Segment<Entry>>, i: nat, j: nat)
    requires i < |segs| && j < |segs[i].buttons| && segs[i].buttons[j].WordButton?
    requires segs[i].buttons[j].data.word == "the"
    ensures var e := segs[i].buttons[j].data;
            var next := NextOf(rd, segs, i);
            var m := PostProcess(rd, st, segs).segments[i].buttons[j].data;
            && (DetItems(st, e).Failure? ==> m.entry == e && (m.conflict <==> MatchesMultipleWordClasses(e)))
            && (DetItems(st, e).Success? && next != "" && |DetItems(st, e).value| > 0 ==>
                  var items := DetItems(st, e).value;
                  && (IsVocalicSound(next[0]) && FirstWeakEndingIn(items, "i").Some? ==>
                        m.entry.selected.Some? && WeakEndingIn(m.entry.selected.value, "i")
                        && m.entry.selected == FirstWeakEndingIn(items, "i"))
                  && (IsVocalicSound(next[0]) && FirstWeakEndingIn(items, "i").None? && FirstWeakEndingIn(items, "ə").Some? ==>
                        m.entry.selected == FirstWeakEndingIn(items, "ə"))
                  && (!IsVocalicSound(next[0]) && FirstWeakEndingIn(items, "ə").Some? ==>
                        m.entry.selected == FirstWeakEndingIn(items, "ə"))
                  && (TheSelection(items, next).None? ==> m.entry == e)
                  && (m.conflict <==> MatchesMultipleWordClasses(e)))
  {
    PostProcessAt(rd, st, segs, i);
  }

  /** The pass keeps every entry valid: a selection it makes is one of the entry's items. */
  lemma PostProcessValid(rd: Reading, st: Settings, segs: seq<Segment<Entry>>, i: nat, j: nat)
    requires i < |segs| && j < |segs[i].buttons| && segs[i].buttons[j].WordButton?
    requires Valid(segs[i].buttons[j].data)
    ensures Valid(PostProcess(rd, st, segs).segments[i].buttons[j].data.entry)
  {
    PostProcessAt(rd, st, segs, i);
  }

  /** Some button is focused exactly when there is a word button; it is the first
      conflict when there is one, and the first word button otherwise. */
  lemma PostProcessFocus(rd: Reading, st: Settings, segs: seq<Segment<Entry>>)
    ensures var r := PostProcess(rd, st, segs);
            && (r.focus.Some? <==> exists i, j :: 0 <= i < |r.segments| && 0 <= j < |r.segments[i].buttons| &&
                                                 IsWordButton(r.segments[i].buttons[j]))
            && (FirstWhere(r.segments, IsConflictButton, 0).Some? ==>
                  r.focus == FirstWhere(r.segments, IsConflictButton, 0) && IsConflictButton(r.segments[r.focus.value.segment].buttons[r.focus.value.button]))
            && (FirstWhere(r.segments, IsConflictButton, 0).None? ==> r.focus == FirstWhere(r.segments, IsWordButton, 0))
  {
    var r := PostProcess(rd, st, segs);
    var c := FirstWhere(r.segments, IsConflictButton, 0);
    if c.Some? {
      var p := c.value;
      assert IsWordButton(r.segments[p.segment].buttons[p.button]);
    }
  }

  // ---------------------------------------------------------------------------
  // The finding at Transcriber.java:735-740

  /** With one schwa form and one "i" form, the choice depends only on whether the
      next sound is a vowel. */
  lemma TheSelectionPair(schwa: Item, front: Item, next: string)
    requires next != ""
    requires schwa.phonetic == Some("ðə") && IsWeak(schwa)
    requires front.phonetic == Some("ði") && IsWeak(front)
    ensures TheSelection([schwa, front], next) == if IsVocalicSound(next[0]) then Some(front) else Some(schwa)
  {
    assert WeakEndingIn(schwa, "ə") && WeakEndingIn(front, "i");
    assert !WeakEndingIn(schwa, "i") && !WeakEndingIn(front, "ə");
    var items := [schwa, front];
    assert items[0] == schwa && items[1] == front;
    assert FirstWeakEndingIn(items, "ə") == Some(schwa);
    assert FirstWeakEndingIn(items, "i") == Some(front);
  }

  /** "the 81": the next segment shows the buttons "eighty" /eɪti/ and "one" /wʌn/.
      As written the pass reads /wʌn/, sees no vowel and keeps the schwa form ðə;
      read from the first button the next sound is /eɪti/ and the pass selects ði. */
  lemma NextPhoneticReadsLastButton(eighty: Entry, one: Entry, schwa: Item, front: Item)
    requires SelectedPhonetic(eighty) == "eɪti" && !IsEmpty(eighty)
    requires SelectedPhonetic(one) == "wʌn" && !IsEmpty(one)
    requires schwa.phonetic == Some("ðə") && IsWeak(schwa)
    requires front.phonetic == Some("ði") && IsWeak(front)
    ensures var bs := [WordButton(eighty), WordButton(one)];
            && NextPhoneticAsWritten(bs) == "wʌn" && NextPhonetic(bs) == "eɪti"
            && TheSelection([schwa, front], NextPhoneticAsWritten(bs)) == Some(schwa)
            && TheSelection([schwa, front], NextPhonetic(bs)) == Some(front)
  {
    var bs := [WordButton(eighty), WordButton(one)];
    assert GivesPhonetic(bs[0]) && GivesPhonetic(bs[1]);
    NextPhoneticAsWrittenLast(bs);
    assert LastGiver(bs, 1);
    TheSelectionPair(schwa, front, "wʌn");
    TheSelectionPair(schwa, front, "eɪti");
  }

  /** No two buttons of the row give a sound. */
  predicate AtMostOneSound(bs: seq<Button<Entry>>) {
    forall j, k :: 0 <= j < |bs| && 0 <= k < |bs| && GivesPhonetic(bs[j]) && GivesPhonetic(bs[k]) ==> j == k
  }

  /** The two readings give the same pass result for a segment whose successor has
      at most one button that gives a sound. */
  lemma PostProcessReadingsAgree(st: Settings, segs: seq<Segment<Entry>>, i: nat)
    requires i < |segs|
    requires i + 1 < |segs| ==> AtMostOneSound(segs[i + 1].buttons)
    ensures PostProcess(AsWritten, st, segs).segments[i] == PostProcess(Intended, st, segs).segments[i]
  {
    if i + 1 < |segs| {
      var bs := segs[i + 1].buttons;
      if j :| 0 <= j < |bs| && GivesPhonetic(bs[j]) {
        NextPhoneticSingle(bs, j);
      } else {
        NextPhoneticAsWrittenLast(bs);
      }
    }
    assert NextOf(AsWritten, segs, i) == NextOf(Intended, segs, i);
    PostProcessAt(AsWritten, st, segs, i);
    PostProcessAt(Intended, st, segs, i);
  }

  /** "the" before "81" in the whole pass: as written it keeps the schwa form ðə,
      read from the first button it selects ði. */
  lemma PostProcessTheEightyOne(st: Settings, segs: seq<Segment<Entry>>, i: nat, j: nat,
                                eighty: Entry, one: Entry, schwa: Item, front: Item)
    requires i + 1 < |segs| && j < |segs[i].buttons| && segs[i].buttons[j].WordButton?
    requires segs[i].buttons[j].data.word == "the"
    requires DetItems(st, segs[i].buttons[j].data) == Success([schwa, front])
    requires segs[i + 1].buttons == [WordButton(eighty), WordButton(one)]
    requires SelectedPhonetic(eighty) == "eɪti" && !IsEmpty(eighty)
    requires SelectedPhonetic(one) == "wʌn" && !IsEmpty(one)
    requires schwa.phonetic == Some("ðə") && IsWeak(schwa)
    requires front.phonetic == Some("ði") && IsWeak(front)
    ensures PostProcess(AsWritten, st, segs).segments[i].buttons[j].data.entry.selected == Some(schwa)
    ensures PostProcess(Intended, st, segs).segments[i].buttons[j].data.entry.selected == Some(front)
  {
    NextPhoneticReadsLastButton(eighty, one, schwa, front);
    TheSelectsAfter(AsWritten, st, segs, i, j, [schwa, front], schwa);
    TheSelectsAfter(Intended, st, segs, i, j, [schwa, front], front);
  }

  lemma TheSelectsAfter(rd: Reading, st: Settings, segs: seq<Segment<Entry>>, i: nat, j: nat, items: seq<Item>, chosen: Item)
    requires i + 1 < |segs| && j < |segs[i].buttons| && segs[i].buttons[j].WordButton?
    requires segs[i].buttons[j].data.word == "the"
    requires DetItems(st, segs[i].buttons[j].data) == Success(items) && |items| > 0
    requires var next := NextFor(rd, segs[i + 1].buttons);
             next != "" && TheSelection(items, next) == Some(chosen)
    ensures PostProcess(rd, st, segs).segments[i].buttons[j].data.entry.selected == Some(chosen)
  {
    TheSelects(rd, st, segs, i, j, items, chosen);
  }

  /** A "the" with det items before a sound gets the weak form the rule chooses. */
  lemma TheSelects(rd: Reading, st: Settings, segs: seq<Segment<Entry>>, i: nat, j: nat, items: seq<Item>, chosen: Item)
    requires i < |segs| && j < |segs[i].buttons| && segs[i].buttons[j].WordButton?
    requires segs[i].buttons[j].data.word == "the"
    requires DetItems(st, segs[i].buttons[j].data) == Success(items) && |items| > 0
    requires NextOf(rd, segs, i) != "" && TheSelection(items, NextOf(rd, segs, i)) == Some(chosen)
    ensures PostProcess(rd, st, segs).segments[i].buttons[j].data.entry.selected == Some(chosen)
  {
    PostProcessAt(rd, st, segs, i);
  }
}
