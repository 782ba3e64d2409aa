/** The speech-practice scoring engine: the pronunciation score (cleaned
    texts compared by the `SequenceMatcher` ratio), the words-per-minute
    fluency score, the feedback list and one practice attempt that turns
    the capture and recognition outcomes into a result record.  Capturing
    audio and calling the recognition service are not modelled: their
    outcomes are parameters. */
module Practice {
  import opened Wrappers
  import opened PyStr
  import opened SequenceMatcher
  import opened RealArith

  // ---------------------------------------------------------------------
  // Cleaning: `re.sub(r'[^\w\s]', '', text.lower())`
  // ---------------------------------------------------------------------

  /** `\w`: letters, digits and the underscore (ASCII). */
  predicate IsWordChar(c: char) {
    ('a' <= c <= 'z') || ('A' <= c <= 'Z') || ('0' <= c <= '9') || c == '_'
  }

  /** What the pattern `[^\w\s]` does not match: the characters cleaning keeps. */
  predicate IsKept(c: char) {
    IsWordChar(c) || IsSpace(c)
  }

  /** Text cleaning leaves alone: only kept characters, none upper-case. */
  predicate IsCleanText(t: string) {
    forall k :: 0 <= k < |t| ==> IsKept(t[k]) && !IsUpper(t[k])
  }

  /** `re.sub(r'[^\w\s]', '', s)`: every character that is neither a word
      character nor whitespace is dropped, the others stay in order. */
  function RemovePunctuation(s: string): (r: string)
    ensures |r| <= |s|
    ensures forall k :: 0 <= k < |r| ==> IsKept(r[k])
  {
    if s == [] then [] else (if IsKept(s[0]) then [s[0]] else []) + RemovePunctuation(s[1..])
  }

  /** The cleaning applied to both texts before they are compared. */
  function Clean(s: string): (r: string)
    ensures |r| <= |s|
  {
    RemovePunctuation(Lower(s))
  }

  lemma {:induction false} RemovePunctuationConcat(x: string, y: string)
    ensures RemovePunctuation(x + y) == RemovePunctuation(x) + RemovePunctuation(y)
  {
    if x == [] {
      assert x + y == y;
    } else {
      assert (x + y)[0] == x[0];
      assert (x + y)[1..] == x[1..] + y;
      RemovePunctuationConcat(x[1..], y);
    }
  }

  /** Removal drops nothing exactly when every character is kept. */
  lemma {:induction false} RemovePunctuationFixes(s: string)
    ensures RemovePunctuation(s) == s <==> forall k :: 0 <= k < |s| ==> IsKept(s[k])
  {
    if s != [] {
      RemovePunctuationFixes(s[1..]);
      assert forall k :: 1 <= k < |s| ==> s[k] == s[1..][k - 1];
      if !IsKept(s[0]) {
        assert |RemovePunctuation(s)| < |s|;
      }
    }
  }

  /** Every character of the result comes from the input. */
  lemma {:induction false} RemovePunctuationFrom(s: string)
    ensures forall k :: 0 <= k < |RemovePunctuation(s)| ==> RemovePunctuation(s)[k] in s
  {
    if s != [] {
      RemovePunctuationFrom(s[1..]);
      var rest := RemovePunctuation(s[1..]);
      forall k | 0 <= k < |rest|
        ensures rest[k] in s
      {
        assert rest[k] in s[1..];
      }
    }
  }

  /** Cleaning leaves clean text: only word characters and whitespace, and
      no upper-case letter. */
  lemma CleanIsClean(s: string)
    ensures IsCleanText(Clean(s))
  {
    var lowered := Lower(s);
    RemovePunctuationFrom(lowered);
    forall k | 0 <= k < |Clean(s)|
      ensures !IsUpper(Clean(s)[k])
    {
      var i :| 0 <= i < |lowered| && lowered[i] == Clean(s)[k];
      LowerCharFacts(s[i]);
    }
  }

  /** Clean text is its own cleaning. */
  lemma CleanFixesCleanText(t: string)
    requires IsCleanText(t)
    ensures Clean(t) == t
  {
    assert Lower(t) == t;
    RemovePunctuationFixes(t);
  }

  /** Cleaning twice is cleaning once. */
  lemma CleanIdempotent(s: string)
    ensures Clean(Clean(s)) == Clean(s)
  {
    CleanIsClean(s);
    CleanFixesCleanText(Clean(s));
  }

  /** Cleaning works character by character: it distributes over
      concatenation. */
  lemma CleanConcat(x: string, y: string)
    ensures Clean(x + y) == Clean(x) + Clean(y)
  {
    assert Lower(x + y) == Lower(x) + Lower(y);
    RemovePunctuationConcat(Lower(x), Lower(y));
  }

  // ---------------------------------------------------------------------
  // Pronunciation score
  // ---------------------------------------------------------------------

  /** Python's `round(y)` on an exact value: the nearest integer, a tie going
      to the even neighbour. */
  function RoundHalfEven(y: real): (n: int)
    ensures -0.5 <= n as real - y <= 0.5
    ensures (n as real - y == 0.5 || y - n as real == 0.5) ==> n % 2 == 0
  {
    var f := y.Floor;
    var d := y - f as real;
    if d < 0.5 then f
    else if d > 0.5 then f + 1
    else if f % 2 == 0 then f else f + 1
  }

  /** `round(x, 1)`: the nearest multiple of 0.1, ties to even. */
  function RoundTenths(x: real): (r: real)
    ensures -0.05 <= r - x <= 0.05
  {
    RoundHalfEven(x * 10.0) as real / 10.0
  }

  /** A whole number of tenths is left as it is. */
  lemma RoundTenthsOfTenths(n: int)
    ensures RoundTenths(n as real / 10.0) == n as real / 10.0
  {
    assert (n as real / 10.0) * 10.0 == n as real;
  }

  /** `calculate_pronunciation_score`: 0 when either text is empty as given;
      otherwise the similarity ratio of the cleaned texts, as a percentage
      rounded to one decimal. */
  function PronunciationScore(userText: string, expectedText: string): (r: real)
    ensures 0.0 <= r <= 100.0
    ensures userText == [] || expectedText == [] ==> r == 0.0
    ensures userText != [] && expectedText != [] ==>
      -0.05 <= r - Ratio(Clean(userText), Clean(expectedText)) * 100.0 <= 0.05
  {
    if userText == [] || expectedText == [] then 0.0
    else
      var ratio := Ratio(Clean(userText), Clean(expectedText));
      var n := RoundHalfEven(ratio * 1000.0);
      assert 0 <= n <= 1000;
      assert RoundTenths(ratio * 100.0) == n as real / 10.0;
      RoundTenths(ratio * 100.0)
  }

  /** Texts that are the same once cleaned score 100; this includes two
      texts that clean to nothing, such as "?" and "!". */
  lemma ScoreOfSameCleanText(userText: string, expectedText: string)
    requires userText != [] && expectedText != []
    requires Clean(userText) == Clean(expectedText)
    ensures PronunciationScore(userText, expectedText) == 100.0
  {
    RatioOneIffEqual(Clean(userText), Clean(expectedText));
    RoundTenthsOfTenths(1000);
  }

  /** A perfect score means the cleaned texts are the same, as long as they
      hold fewer than 2000 characters together (beyond that a single
      unmatched character no longer shows in the first decimal). */
  lemma PerfectScoreMeansSameCleanText(userText: string, expectedText: string)
    requires userText != [] && expectedText != []
    requires |Clean(userText)| + |Clean(expectedText)| < 2000
    requires PronunciationScore(userText, expectedText) == 100.0
    ensures Clean(userText) == Clean(expectedText)
  {
    if Clean(userText) != Clean(expectedText) {
      RatioOfShortUnequal(Clean(userText), Clean(expectedText));
    }
  }

  /** Two different texts of fewer than 2000 characters together have a
      ratio below 0.9995, so they score below 100. */
  lemma RatioOfShortUnequal(a: string, b: string)
    requires a != b && |a| + |b| < 2000
    ensures Ratio(a, b) < 0.9995
  {
    assert 2 * Matches(a, b) <= |a| + |b| - 1;
    QuotientBelowNearOne(2.0 * Matches(a, b) as real, (|a| + |b|) as real);
  }

  /** Two texts of fewer than 4000 characters together that share a
      character have a ratio above 0.0005, so they score above 0. */
  lemma RatioOfShortSharing(a: string, b: string)
    requires ShareChar(a, b) && |a| + |b| < 4000
    ensures Ratio(a, b) > 0.0005
  {
    NoMatchIffNoSharedChar(a, b);
    QuotientAboveNearZero(2.0 * Matches(a, b) as real, (|a| + |b|) as real);
  }

  /** `x / t < 0.9995` when `x` falls at least 1 short of `t < 2000`. */
  lemma QuotientBelowNearOne(x: real, t: real)
    requires 0.0 < t < 2000.0 && x <= t - 1.0
    ensures x / t < 0.9995
  {
    if x / t >= 0.9995 {
      QuotientTimes(x / t, x, t);
      ProductMonotone(0.9995, x / t, t);
    }
  }

  /** `x / t > 0.0005` when `x >= 2` and `t < 4000`. */
  lemma QuotientAboveNearZero(x: real, t: real)
    requires 0.0 < t < 4000.0 && x >= 2.0
    ensures x / t > 0.0005
  {
    if x / t <= 0.0005 {
      QuotientTimes(x / t, x, t);
      ProductMonotone(x / t, 0.0005, t);
    }
  }

  /** Below 4000 cleaned characters, the score is 0 exactly when a text is
      empty as given, or the cleaned texts are not both empty and share no
      character. */
  lemma ScoreZeroIff(userText: string, expectedText: string)
    requires |Clean(userText)| + |Clean(expectedText)| < 4000
    ensures PronunciationScore(userText, expectedText) == 0.0 <==>
      userText == [] || expectedText == []
      || (|Clean(userText)| + |Clean(expectedText)| > 0 && !ShareChar(Clean(userText), Clean(expectedText)))
  {
    var a, b := Clean(userText), Clean(expectedText);
    if userText != [] && expectedText != [] {
      RatioZeroIffDisjoint(a, b);
      if |a| + |b| > 0 && ShareChar(a, b) {
        RatioOfShortSharing(a, b);
      } else if |a| + |b| > 0 {
        assert Ratio(a, b) == 0.0;
        RoundTenthsOfTenths(0);
      }
    }
  }

  // ---------------------------------------------------------------------
  // Fluency score
  // ---------------------------------------------------------------------

  /** The message of Python's `ZeroDivisionError` for `int / int`. */
  const DivisionByZero := "division by zero"

  /** The message of Python's `ZeroDivisionError` when the divisor is a float. */
  const FloatDivisionByZero := "float division by zero"

  /** The score for a speaking rate in words per minute. */
  function RateBand(wpm: real): real {
    if 120.0 <= wpm <= 160.0 then 100.0
    else if (100.0 <= wpm < 120.0) || (160.0 < wpm <= 180.0) then 80.0
    else if (80.0 <= wpm < 100.0) || (180.0 < wpm <= 200.0) then 60.0
    else 40.0
  }

  /** `analyze_fluency`: 0 without words; otherwise the band of
      `(word_count / audio_duration) * 60`, which raises when the duration
      is 0. */
  function AnalyzeFluency(duration: real, wordCount: nat): (r: Result<real, string>)
    ensures r.Failure? <==> wordCount > 0 && duration == 0.0
    ensures r.Failure? ==> r.error == FloatDivisionByZero
    ensures wordCount == 0 ==> r == Success(0.0)
    ensures wordCount > 0 && r.Success? ==> r.value in {40.0, 60.0, 80.0, 100.0}
  {
    if wordCount == 0 then Success(0.0)
    else if duration == 0.0 then Failure(FloatDivisionByZero)
    else Success(RateBand((wordCount as real / duration) * 60.0))
  }

  /** `(x / d) * 60` against a bound `c`, for a positive `d`, compares
      `60 * x` against `c * d`. */
  lemma RateAgainst(x: real, d: real, c: real)
    requires d > 0.0
    ensures (x / d) * 60.0 < c <==> 60.0 * x < c * d
    ensures (x / d) * 60.0 <= c <==> 60.0 * x <= c * d
  {
    var w := x / d;
    assert x == w * d;
    assert 60.0 * x == (w * 60.0) * d;
  }

  /** The bands restated without division, for a positive duration:
      `wpm = 60 * word_count / duration`. */
  lemma FluencyBands(duration: real, wordCount: nat)
    requires duration > 0.0 && wordCount > 0
    ensures var f, w := AnalyzeFluency(duration, wordCount), 60.0 * wordCount as real;
      f.Success?
      && (f.value == 100.0 <==> 120.0 * duration <= w <= 160.0 * duration)
      && (f.value == 80.0 <==> (100.0 * duration <= w < 120.0 * duration) || (160.0 * duration < w <= 180.0 * duration))
      && (f.value == 60.0 <==> (80.0 * duration <= w < 100.0 * duration) || (180.0 * duration < w <= 200.0 * duration))
      && (f.value == 40.0 <==> w < 80.0 * duration || 200.0 * duration < w)
  {
    var x := wordCount as real;
    var wpm := (x / duration) * 60.0;
    assert wpm < 80.0 <==> 60.0 * x < 80.0 * duration by { RateAgainst(x, duration, 80.0); }
    assert wpm < 100.0 <==> 60.0 * x < 100.0 * duration by { RateAgainst(x, duration, 100.0); }
    assert wpm < 120.0 <==> 60.0 * x < 120.0 * duration by { RateAgainst(x, duration, 120.0); }
    assert wpm <= 160.0 <==> 60.0 * x <= 160.0 * duration by { RateAgainst(x, duration, 160.0); }
    assert wpm <= 180.0 <==> 60.0 * x <= 180.0 * duration by { RateAgainst(x, duration, 180.0); }
    assert wpm <= 200.0 <==> 60.0 * x <= 200.0 * duration by { RateAgainst(x, duration, 200.0); }
  }

  // ---------------------------------------------------------------------
  // Feedback
  // ---------------------------------------------------------------------

  const ExcellentPronunciation := "\U{1f3af} Excellent pronunciation!"
  const GoodPronunciation := "\U{1f44d} Good pronunciation, keep practicing!"
  const PronunciationNeedsImprovement := "\U{26a0}\U{fe0f} Pronunciation needs improvement. Try speaking more clearly."
  const PronunciationNeedsWork := "\U{274c} Pronunciation needs significant work. Practice slowly and clearly."
  const GreatPace := "\U{26a1} Great speaking pace!"
  const GoodPace := "\U{1f4dd} Good pace, try to speak more naturally."
  const UnnaturalPace := "\U{1f40c} Speaking too slowly or too fast. Aim for natural conversation pace."
  const MissingWordsLabel := "\U{1f50d} Missing words: "
  const ExtraWordsLabel := "\U{2795} Extra words: "

  /** The pronunciation message: at least 90, 80, 70, or below. */
  function PronunciationTier(score: real): string {
    if score >= 90.0 then ExcellentPronunciation
    else if score >= 80.0 then GoodPronunciation
    else if score >= 70.0 then PronunciationNeedsImprovement
    else PronunciationNeedsWork
  }

  /** The fluency message: at least 80, 60, or below. */
  function FluencyTier(score: real): string {
    if score >= 80.0 then GreatPace
    else if score >= 60.0 then GoodPace
    else UnnaturalPace
  }

  predicate NoDuplicates(ws: seq<string>) {
    forall i, j :: 0 <= i < j < |ws| ==> ws[i] != ws[j]
  }

  /** `set(xs) - set(ys)` listed once each, in order of first appearance in
      `xs` (Python lists a set in an order of its own); see
      DifferenceContents. */
  function Difference(xs: seq<string>, ys: seq<string>): seq<string> {
    if xs == [] then []
    else
      var d, w := Difference(xs[..|xs| - 1], ys), xs[|xs| - 1];
      if w in ys || w in d then d else d + [w]
  }

  /** The listed words are exactly the set difference, each once. */
  lemma {:induction false} DifferenceContents(xs: seq<string>, ys: seq<string>)
    ensures var d := Difference(xs, ys);
      NoDuplicates(d) && forall w :: w in d <==> w in xs && w !in ys
  {
    if xs != [] {
      var init, w := xs[..|xs| - 1], xs[|xs| - 1];
      assert xs == init + [w];
      DifferenceContents(init, ys);
    }
  }

  /** Something is listed exactly when some token of `xs` is not in `ys`. */
  lemma DifferenceNonEmpty(xs: seq<string>, ys: seq<string>)
    ensures Difference(xs, ys) != [] <==> exists w :: w in xs && w !in ys
  {
    var d := Difference(xs, ys);
    DifferenceContents(xs, ys);
    if d != [] {
      assert d[0] in d;
    }
  }

  /** The raw whitespace tokens of the expected text that the user did not say. */
  function MissingWords(userText: string, expectedText: string): seq<string> {
    Difference(Words(expectedText), Words(userText))
  }

  /** The raw whitespace tokens the user said that the expected text lacks. */
  function ExtraWords(userText: string, expectedText: string): seq<string> {
    Difference(Words(userText), Words(expectedText))
  }

  /** Some token of `expectedText` is not a token of `userText`, both texts
      being non-empty. */
  predicate HasMissing(userText: string, expectedText: string) {
    userText != [] && expectedText != []
    && exists w :: w in Words(expectedText) && w !in Words(userText)
  }

  predicate HasExtra(userText: string, expectedText: string) {
    userText != [] && expectedText != []
    && exists w :: w in Words(userText) && w !in Words(expectedText)
  }

  /** The "missing words" line, present only when something is missing. */
  function MissingLine(missing: seq<string>): seq<string> {
    if missing != [] then [MissingWordsLabel + Join(", ", missing)] else []
  }

  /** The "extra words" line, present only when something is extra. */
  function ExtraLine(extra: seq<string>): seq<string> {
    if extra != [] then [ExtraWordsLabel + Join(", ", extra)] else []
  }

  /** The list `get_feedback` returns: the two tier messages, then, when
      both texts are non-empty, the missing line and the extra line, in the
      order they are appended. */
  function Feedback(pronunciation: real, fluency: real, userText: string, expectedText: string): seq<string> {
    var tiers := [PronunciationTier(pronunciation), FluencyTier(fluency)];
    if userText != [] && expectedText != [] then
      tiers + MissingLine(MissingWords(userText, expectedText)) + ExtraLine(ExtraWords(userText, expectedText))
    else tiers
  }

  /** The feedback opens with exactly one pronunciation message and one
      fluency message; a "missing words" line follows exactly when some
      expected token was not said, then an "extra words" line exactly when
      some token said was not expected. */
  lemma FeedbackShape(pronunciation: real, fluency: real, userText: string, expectedText: string)
    ensures var fb := Feedback(pronunciation, fluency, userText, expectedText);
      |fb| == 2 + (if HasMissing(userText, expectedText) then 1 else 0)
                + (if HasExtra(userText, expectedText) then 1 else 0)
      && fb[0] == PronunciationTier(pronunciation)
      && fb[1] == FluencyTier(fluency)
      && (HasMissing(userText, expectedText) ==>
            fb[2] == MissingWordsLabel + Join(", ", MissingWords(userText, expectedText)))
      && (HasExtra(userText, expectedText) ==>
            fb[|fb| - 1] == ExtraWordsLabel + Join(", ", ExtraWords(userText, expectedText)))
  {
    DifferenceNonEmpty(Words(expectedText), Words(userText));
    DifferenceNonEmpty(Words(userText), Words(expectedText));
  }

  /** The two lines list exactly the set differences of the tokens, each
      token once. */
  lemma FeedbackWords(userText: string, expectedText: string)
    ensures var missing := MissingWords(userText, expectedText);
      NoDuplicates(missing)
      && forall w :: w in missing <==> w in Words(expectedText) && w !in Words(userText)
    ensures var extra := ExtraWords(userText, expectedText);
      NoDuplicates(extra)
      && forall w :: w in extra <==> w in Words(userText) && w !in Words(expectedText)
  {
    DifferenceContents(Words(expectedText), Words(userText));
    DifferenceContents(Words(userText), Words(expectedText));
  }

  // ---------------------------------------------------------------------
  // One practice attempt
  // ---------------------------------------------------------------------

  const NoSpeechDetected := "\U{274c} No speech detected. Please try again."
  const NotUnderstood := "\U{274c} Could not understand speech. Please speak clearly."
  const ErrorDuringPractice := "\U{274c} Error during practice: "

  /** The recording `record_speech` returns: raw frames and their format. */
  datatype AudioData = AudioData(frameData: seq<bv8>, sampleRate: int, sampleWidth: int)

  /** The dictionary `practice_line` returns. */
  datatype PracticeResult = PracticeResult(
    success: bool,
    userText: Option<string>,
    pronunciationScore: real,
    fluencyScore: real,
    feedback: seq<string>,
    audioDuration: real)

  /** The initial result with one failure message appended. */
  function Unsuccessful(message: string): PracticeResult {
    PracticeResult(false, None, 0.0, 0.0, [message], 0.0)
  }

  /** `speech_to_text`: the recognizer's text lower-cased and stripped, or
      None when the service could not understand or could not be reached. */
  function Transcript(recognized: Option<string>): Option<string> {
    match recognized
    case None => None
    case Some(text) => Some(Strip(Lower(text)))
  }

  /** A transcript is lower-case, carries no surrounding whitespace, and is
      empty exactly when the recognizer's text was blank. */
  lemma TranscriptNormalised(recognized: Option<string>)
    requires recognized.Some?
    ensures var t := Transcript(recognized).value;
      (forall c :: c in t ==> !IsUpper(c))
      && Strip(t) == t
      && (t == [] <==> IsBlank(recognized.value))
  {
    var lower := Lower(recognized.value);
    StripIdempotent(lower);
    StripKeepsChars(lower);
    LowerHasNoUpper(recognized.value);
    LowerKeepsBlank(recognized.value);
  }

  /** `speech_to_text` returned something non-empty. */
  predicate Understood(userText: Option<string>) {
    userText.Some? && userText.value != []
  }

  /** `len(audio.frame_data) / (audio.sample_rate * audio.sample_width)`,
      which raises when the product is 0. */
  function AudioDuration(audio: AudioData): Result<real, string> {
    var bytesPerSecond := audio.sampleRate * audio.sampleWidth;
    if bytesPerSecond == 0 then Failure(DivisionByZero)
    else Success(|audio.frameData| as real / bytesPerSecond as real)
  }

  /** The duration fails, with Python's integer division message, exactly
      when the sample rate or the sample width is 0; otherwise it is 0
      exactly when no frame was recorded. */
  lemma AudioDurationCases(audio: AudioData)
    ensures AudioDuration(audio).Failure? <==> audio.sampleRate * audio.sampleWidth == 0
    ensures AudioDuration(audio).Failure? ==> AudioDuration(audio).error == DivisionByZero
    ensures AudioDuration(audio).Success? ==>
      (AudioDuration(audio).value == 0.0 <==> |audio.frameData| == 0)
  {
    if audio.sampleRate * audio.sampleWidth != 0 {
      QuotientIsZero(|audio.frameData| as real, (audio.sampleRate * audio.sampleWidth) as real);
    }
  }

  /** A non-empty transcript has at least one word. */
  lemma TranscriptHasWords(recognized: Option<string>)
    requires Understood(Transcript(recognized))
    ensures |Words(Transcript(recognized).value)| > 0
  {
    WordsEmptyIffBlank(Transcript(recognized).value);
  }

  /** The record `practice_line` returns, given what `record_speech`
      captured and what `speech_to_text` made of it: a failure message for
      the first step that fails, otherwise the transcript, both scores, the
      feedback and the duration. */
  function Attempt(expectedText: string, captured: Option<AudioData>, userText: Option<string>): PracticeResult {
    if captured.None? then Unsuccessful(NoSpeechDetected)
    else if !Understood(userText) then Unsuccessful(NotUnderstood)
    else
      var text := userText.value;
      match AudioDuration(captured.value)
      case Failure(e) => Unsuccessful(ErrorDuringPractice + e)
      case Success(duration) =>
        match AnalyzeFluency(duration, |Words(text)|)
        case Failure(e) => Unsuccessful(ErrorDuringPractice + e)
        case Success(fluency) =>
          var pronunciation := PronunciationScore(text, expectedText);
          PracticeResult(true, Some(text), pronunciation, fluency,
                         Feedback(pronunciation, fluency, text, expectedText), duration)
  }

  /** Each way an attempt fails, with its single message: nothing heard,
      nothing understood, a zero sample rate or width (integer division by
      zero), or words over no audio frames (a zero duration, so a float
      division by zero in the fluency step). */
  lemma AttemptFailures(expectedText: string, captured: Option<AudioData>, userText: Option<string>)
    ensures var r := Attempt(expectedText, captured, userText);
      (captured.None? ==> r == Unsuccessful(NoSpeechDetected))
      && (captured.Some? && !Understood(userText) ==> r == Unsuccessful(NotUnderstood))
      && (captured.Some? && Understood(userText)
          && captured.value.sampleRate * captured.value.sampleWidth == 0 ==>
            r == Unsuccessful(ErrorDuringPractice + DivisionByZero))
      && (captured.Some? && Understood(userText)
          && captured.value.sampleRate * captured.value.sampleWidth != 0
          && |captured.value.frameData| == 0 && |Words(userText.value)| > 0 ==>
            r == Unsuccessful(ErrorDuringPractice + FloatDivisionByZero))
  {
    if captured.Some? && Understood(userText) {
      AudioDurationCases(captured.value);
    }
  }

  /** An attempt succeeds exactly when audio was captured and understood,
      its sample rate and width are non-zero, and it has frames unless the
      transcript holds no word at all; it then carries the transcript, its
      pronunciation score against the expected text, the duration, the
      fluency score of the transcript's own word count over that duration
      (0 without words, otherwise one of the four bands), and the feedback
      for those scores. */
  lemma AttemptSuccess(expectedText: string, captured: Option<AudioData>, userText: Option<string>)
    ensures var r := Attempt(expectedText, captured, userText);
      r.success <==>
        captured.Some? && Understood(userText)
        && captured.value.sampleRate * captured.value.sampleWidth != 0
        && (|captured.value.frameData| > 0 || |Words(userText.value)| == 0)
    ensures var r := Attempt(expectedText, captured, userText);
      r.success ==>
        r.userText == userText
        && r.pronunciationScore == PronunciationScore(userText.value, expectedText)
        && r.audioDuration == AudioDuration(captured.value).value
        && r.fluencyScore == AnalyzeFluency(r.audioDuration, |Words(userText.value)|).value
        && (|Words(userText.value)| == 0 ==> r.fluencyScore == 0.0)
        && (|Words(userText.value)| > 0 ==> r.fluencyScore in {40.0, 60.0, 80.0, 100.0})
        && r.feedback == Feedback(r.pronunciationScore, r.fluencyScore, userText.value, expectedText)
  {
    if captured.Some? && Understood(userText) {
      AudioDurationCases(captured.value);
    }
  }

  /** The speech-practice session: the recognizer settings it starts with,
      and the two steps that build lists and records. */
  class SpeechPractice {
    var energyThreshold: int
    var dynamicEnergyThreshold: bool

    /** `__init__`: energy threshold 4000, adjusted dynamically. */
    constructor()
      ensures energyThreshold == 4000 && dynamicEnergyThreshold
    {
      energyThreshold := 4000;
      dynamicEnergyThreshold := true;
    }

    /** `get_feedback`: appends one pronunciation message, one fluency
        message, then the word lines when both texts are non-empty. */
    method GetFeedback(pronunciation: real, fluency: real, userText: string, expectedText: string)
      returns (feedback: seq<string>)
      ensures feedback == Feedback(pronunciation, fluency, userText, expectedText)
    {
      feedback := [];
      if pronunciation >= 90.0 {
        feedback := feedback + [ExcellentPronunciation];
      } else if pronunciation >= 80.0 {
        feedback := feedback + [GoodPronunciation];
      } else if pronunciation >= 70.0 {
        feedback := feedback + [PronunciationNeedsImprovement];
      } else {
        feedback := feedback + [PronunciationNeedsWork];
      }
      assert feedback == [PronunciationTier(pronunciation)];
      if fluency >= 80.0 {
        feedback := feedback + [GreatPace];
      } else if fluency >= 60.0 {
        feedback := feedback + [GoodPace];
      } else {
        feedback := feedback + [UnnaturalPace];
      }
      assert feedback == [PronunciationTier(pronunciation), FluencyTier(fluency)];
      ghost var tiers := feedback;
      if userText != [] && expectedText != [] {
        var userWords, expectedWords := Words(userText), Words(expectedText);
        var missing := Difference(expectedWords, userWords);
        var extra := Difference(userWords, expectedWords);
        if missing != [] {
          feedback := feedback + [MissingWordsLabel + Join(", ", missing)];
        }
        assert feedback == tiers + MissingLine(missing);
        if extra != [] {
          feedback := feedback + [ExtraWordsLabel + Join(", ", extra)];
        }
        assert feedback == tiers + MissingLine(missing) + ExtraLine(extra);
      }
    }

    /** `practice_line`, given what `record_speech` captured (None when
        nothing was heard) and what `speech_to_text` returned for it (None
        when the recognizer failed).  A division by zero is caught and
        reported as an error line. */
    method PracticeLine(expectedText: string, captured: Option<AudioData>, userText: Option<string>)
      returns (result: PracticeResult)
      ensures result == Attempt(expectedText, captured, userText)
    {
      result := PracticeResult(false, None, 0.0, 0.0, [], 0.0);
      if captured.None? {
        result := result.(feedback := result.feedback + [NoSpeechDetected]);
        assert result == Unsuccessful(NoSpeechDetected);
        return;
      }
      var audio := captured.value;
      if userText.None? || userText.value == [] {
        result := result.(feedback := result.feedback + [NotUnderstood]);
        assert result == Unsuccessful(NotUnderstood);
        return;
      }
      var text := userText.value;
      var pronunciation := PronunciationScore(text, expectedText);
      var duration := AudioDuration(audio);
      if duration.Failure? {
        result := result.(feedback := result.feedback + [ErrorDuringPractice + duration.error]);
        assert result == Unsuccessful(ErrorDuringPractice + duration.error);
        return;
      }
      var wordCount := |Words(text)|;
      var fluency := AnalyzeFluency(duration.value, wordCount);
      if fluency.Failure? {
        result := result.(feedback := result.feedback + [ErrorDuringPractice + fluency.error]);
        assert result == Unsuccessful(ErrorDuringPractice + fluency.error);
        return;
      }
      var feedback := GetFeedback(pronunciation, fluency.value, text, expectedText);
      result := result.(success := true, userText := Some(text), pronunciationScore := pronunciation,
                        fluencyScore := fluency.value, feedback := feedback, audioDuration := duration.value);
    }
  }
}
