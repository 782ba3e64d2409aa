// Turning a conversation into spoken segments: blank lines are skipped, a
// speaker label is cut off at the first ": ", and a line yields a segment
// only when the text-to-speech engine hands back some audio.

module TtsGenerator {
  import opened Wrappers
  import opened PyStr

  /** One entry of the list `conversation_to_speech` returns: the text that
      was spoken and the audio bytes produced for it. */
  datatype Segment = Segment(text: string, audio: seq<bv8>)

  /** The text-to-speech engine: `None` when it raised, otherwise the bytes
      it produced (possibly none). */
  type Engine = string -> Option<seq<bv8>>

  /** The separator between a speaker label and what the speaker says. */
  const LabelSeparator := ": "

  /** The text of a line as it is spoken: the stripped line, minus
      everything up to and including the first ": " when there is one. */
  function SpeakerText(line: string): string
  {
    var s := Strip(line);
    match Find(s, LabelSeparator)
    case None => s
    case Some(k) =>
      s[k + |LabelSeparator|..]
  }

  /** A line that is not blank is never spoken as empty text: the stripped
      line ends in a non-space, so something follows its first ": ". */
  lemma SpeakerTextNonEmpty(line: string)
    requires Strip(line) != []
    ensures SpeakerText(line) != []
  {
    var s := Strip(line);
    FindIsFirst(s, LabelSeparator);
    if Find(s, LabelSeparator).Some? {
      var k := Find(s, LabelSeparator).value;
      assert s[k..k + |LabelSeparator|][1] == s[k + 1];
    }
  }

  /** With a ": " in the stripped line, the text is what follows its first
      occurrence: the label before it holds no ": " of its own, and label,
      separator and text put back together give the stripped line. */
  lemma SpeakerTextAfterLabel(line: string)
    requires Find(Strip(line), LabelSeparator).Some?
    ensures var s, k := Strip(line), Find(Strip(line), LabelSeparator).value;
      s[..k] + LabelSeparator + SpeakerText(line) == s
      && Find(s[..k], LabelSeparator) == None
  {
    var s, k := Strip(line), Find(Strip(line), LabelSeparator).value;
    FindSplits(s, LabelSeparator, k);
    FindInPrefix(s, LabelSeparator, k);
  }

  /** Without a ": " the text is the stripped line itself. */
  lemma SpeakerTextWithoutLabel(line: string)
    requires forall k :: 0 <= k ==> !OccursAt(Strip(line), LabelSeparator, k)
    ensures SpeakerText(line) == Strip(line)
  {
    FindIsFirst(Strip(line), LabelSeparator);
  }

  /** `if audio_data:` — the engine answered, with at least one byte. */
  predicate Speaks(tts: Engine, text: string) {
    tts(text).Some? && tts(text).value != []
  }

  /** A line that yields a segment. */
  predicate Kept(tts: Engine, line: string) {
    Strip(line) != [] && Speaks(tts, SpeakerText(line))
  }

  /** The number of lines that are not blank. */
  function NonBlankCount(lines: seq<string>): (n: nat)
    ensures n <= |lines|
  {
    if lines == [] then 0
    else NonBlankCount(lines[..|lines| - 1]) + (if Strip(lines[|lines| - 1]) != [] then 1 else 0)
  }

  /** The segment a single line yields, if any. */
  function LineSegments(tts: Engine, line: string): seq<Segment> {
    if Kept(tts, line) then [Segment(SpeakerText(line), tts(SpeakerText(line)).value)] else []
  }

  /** The segments of `conversation_to_speech`, in line order. */
  function Segments(tts: Engine, lines: seq<string>): seq<Segment>
  {
    if lines == [] then []
    else Segments(tts, lines[..|lines| - 1]) + LineSegments(tts, lines[|lines| - 1])
  }

  /** There are never more segments than non-blank lines. */
  lemma {:induction false} SegmentsAtMostNonBlank(tts: Engine, lines: seq<string>)
    ensures |Segments(tts, lines)| <= NonBlankCount(lines)
  {
    if lines != [] {
      SegmentsAtMostNonBlank(tts, lines[..|lines| - 1]);
    }
  }

  /** One line on its own yields exactly its own segment, if any. */
  lemma SegmentsOfOneLine(tts: Engine, line: string)
    ensures Segments(tts, [line]) == LineSegments(tts, line)
  {
    assert [line][..0] == [];
  }

  /** The segments of two stretches of conversation are those of the first
      followed by those of the second: lines are handled one by one, in
      order, each independently of the others. */
  lemma {:induction false} SegmentsConcat(tts: Engine, xs: seq<string>, ys: seq<string>)
    ensures Segments(tts, xs + ys) == Segments(tts, xs) + Segments(tts, ys)
  {
    if ys == [] {
      assert xs + ys == xs;
    } else {
      var init := ys[..|ys| - 1];
      assert (xs + ys)[..|xs + ys| - 1] == xs + init;
      assert (xs + ys)[|xs + ys| - 1] == ys[|ys| - 1];
      SegmentsConcat(tts, xs, init);
    }
  }

  /** Every segment holds some audio and comes from a non-blank line: its
      text is that line's spoken text and its audio is what the engine
      returned for the text. */
  lemma {:induction false} SegmentsComeFromLines(tts: Engine, lines: seq<string>)
    ensures forall seg :: seg in Segments(tts, lines) ==>
      seg.audio != [] && exists i :: (0 <= i < |lines| && Strip(lines[i]) != []
        && seg.text == SpeakerText(lines[i]) && tts(seg.text) == Some(seg.audio))
  {
    if lines != [] {
      var init, last := lines[..|lines| - 1], lines[|lines| - 1];
      SegmentsComeFromLines(tts, init);
      forall seg | seg in Segments(tts, lines)
        ensures seg.audio != [] && exists i :: (0 <= i < |lines| && Strip(lines[i]) != []
          && seg.text == SpeakerText(lines[i]) && tts(seg.text) == Some(seg.audio))
      {
        if seg in Segments(tts, init) {
          var i :| 0 <= i < |init| && Strip(init[i]) != []
            && seg.text == SpeakerText(init[i]) && tts(seg.text) == Some(seg.audio);
          assert lines[i] == init[i];
        } else {
          assert seg in LineSegments(tts, last);
          assert seg == Segment(SpeakerText(last), tts(SpeakerText(last)).value);
          assert Strip(lines[|lines| - 1]) != [];
        }
      }
    }
  }

  /** When the engine always produces audio, every non-blank line yields
      exactly one segment. */
  lemma {:induction false} SegmentsWhenEngineAlwaysSpeaks(tts: Engine, lines: seq<string>)
    requires forall text :: Speaks(tts, text)
    ensures |Segments(tts, lines)| == NonBlankCount(lines)
  {
    if lines != [] {
      SegmentsWhenEngineAlwaysSpeaks(tts, lines[..|lines| - 1]);
      assert Speaks(tts, SpeakerText(lines[|lines| - 1]));
    }
  }

  /** Taking one more line adds that line's segment, if any. */
  lemma SegmentsStep(tts: Engine, lines: seq<string>, i: nat)
    requires i < |lines|
    ensures Segments(tts, lines[..i + 1]) == Segments(tts, lines[..i]) + LineSegments(tts, lines[i])
  {
    assert lines[..i + 1][..i] == lines[..i];
  }

  /** `conversation_to_speech`: walks the lines and appends a segment for
      every kept line; the label cut of each line is `SpeakerText`. */
  method ConversationToSpeech(tts: Engine, conversationLines: seq<string>)
    returns (audioSegments: seq<Segment>)
    ensures audioSegments == Segments(tts, conversationLines)
  {
    audioSegments := [];
    var i := 0;
    while i < |conversationLines|
      invariant 0 <= i <= |conversationLines|
      invariant audioSegments == Segments(tts, conversationLines[..i])
    {
      var line := conversationLines[i];
      SegmentsStep(tts, conversationLines, i);
      if Strip(line) != [] {
        var text := SpeakerText(line);
        var audioData := tts(text);
        if audioData.Some? && audioData.value != [] {
          audioSegments := audioSegments + [Segment(text, audioData.value)];
        }
      }
      i := i + 1;
    }
    assert conversationLines[..i] == conversationLines;
  }
}
