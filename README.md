# AI English Simulator — speech practice and conversation speech, in Dafny

This project models the scoring core of the AI English Simulator, a
conversation-practice tool. A learner reads a line aloud, and the tool
produces four things:

- a **pronunciation score**: the `difflib.SequenceMatcher` similarity of the
  cleaned transcript and the expected line, as a percentage rounded to one
  decimal;
- a **fluency score**: a band read off the words-per-minute rate;
- a **feedback list**: one tier message per score, then the tokens that
  were missing or extra;
- a **practice result** record, whose failure paths each leave exactly one
  message.

It also models how a conversation becomes spoken segments. Blank lines are
skipped. A speaker label is cut off at the first `": "`. A line is kept only
when the text-to-speech engine returns some audio.

Modules:

- `wrappers.dfy`: `Option` and `Result`.
- `real_arith.dfy`: small facts about real products and quotients.
- `pystr.dfy`: the Python string built-ins the core uses: `isspace`,
  `strip`, `split()`, `lower`, `in`/`find`, `join`.
- `sequence_matcher.dfy`: difflib's longest match, matching blocks and
  `ratio()`, with no junk.
- `speech_practice.dfy`: text cleaning, both scores, feedback, and the
  `SpeechPractice` class with `get_feedback` and `practice_line` as methods.
- `tts_generator.dfy`: `conversation_to_speech` as a loop, proved against a
  specification function.

Microphone capture, the recognition service and the speech engine are I/O.
They appear as inputs:

- `PracticeLine` receives what `record_speech` captured and what
  `speech_to_text` returned. `Transcript` models `speech_to_text`'s own
  normalisation.
- `ConversationToSpeech` receives the engine as a function from text to
  optional bytes.

Points where the code's behaviour may be surprising:

- **Empty input.** The early return of 0 (`speech_practice.py:47-48`) tests
  the texts as given, not the cleaned texts. Texts that clean to nothing, such
  as `"?"` and `"!"`, score 100 (`ScoreOfSameCleanText`). They do not score 0.
  Non-empty texts with no character in common do score 0 (`ScoreZeroIff`).
- **Raw tokens in the word lists.** The missing and extra lists compare raw
  whitespace tokens of the uncleaned texts (`speech_practice.py:106-109`).
  So `"hello how are you"` against `"hello, how are you?"` scores 100 but
  still lists `hello,` and `you?` as missing, and `hello` and `you` as extra.
- **Symmetry.** The score is not claimed to be symmetric. difflib breaks ties
  between equally long matches by position, so the ratio can depend on the
  order of the two arguments.
- **Zero-length audio.** Audio with no frames but a non-empty transcript is
  not scored 0. It ends in the caught division error
  (`speech_practice.py:144-146,160-161`).

## Model

| member | source | states |
|---|---|---|
| PyStr.StripLeft | speech_practice.py:38 | the left half of `strip()`: what it removes is whitespace, and what it keeps does not start with whitespace |
| PyStr.StripRight | speech_practice.py:38 | the right half of `strip()`: what it removes is whitespace, and what it keeps does not end with whitespace |
| PyStr.IsSpace | speech_practice.py:38 | the characters `str.isspace` treats as whitespace, the set `strip()`, `split()` and `\s` share; `WordsEmptyIffBlank`, `Strip` and `CleanIsClean` state their results in terms of it |
| PyStr.Strip | speech_practice.py:38 | `strip()` gives the empty string exactly for an all-whitespace input, and otherwise starts and ends with a non-whitespace character |
| PyStr.StripIdempotent | speech_practice.py:38 | stripping an already stripped text changes nothing |
| PyStr.StripKeepsChars | speech_practice.py:38 | every character left by `strip()` comes from the input |
| PyStr.Words | speech_practice.py:145 | every token of `split()` is non-empty and holds no whitespace |
| PyStr.WordsEmptyIffBlank | speech_practice.py:145 | `split()` returns no token exactly when the text is all whitespace |
| PyStr.WordsSkipSpace | speech_practice.py:145 | `split()` ignores a leading whitespace character |
| PyStr.WordsFirstToken | speech_practice.py:145 | a non-empty run without whitespace, followed by whitespace or nothing, is the first token of `split()` |
| PyStr.Join | speech_practice.py:112-114 | `', '.join(words)`: the tokens with the separator between each pair. The `", "` lines are described through `FeedbackShape` and `FeedbackWords`, on the token list before it is joined; `WordsOfJoin` is about the single-space join only |
| PyStr.WordsOfJoin | speech_practice.py:106-107 | splitting the single-space join of whitespace-free tokens gives back those tokens, in order |
| PyStr.Lower | speech_practice.py:51-52 | `lower()` keeps the length, leaves no upper-case letter, keeps whitespace as whitespace and leaves every character that is not an upper-case letter as it was; together these make lower-casing idempotent |
| PyStr.LowerHasNoUpper | speech_practice.py:38 | `lower()` leaves no upper-case letter |
| PyStr.LowerKeepsBlank | speech_practice.py:38 | `lower()` keeps a text blank or non-blank |
| PyStr.Find | tts_generator.py:45-46 | `': ' in text` and `split(': ', 1)`: a position found leaves room for the whole pattern; `FindIsFirst` states which position it is |
| PyStr.FindIsFirst | tts_generator.py:45-46 | the pattern occurs at the position found and at no earlier one, and None means it occurs nowhere |
| PyStr.FindSplits | tts_generator.py:46 | the text before the first occurrence, the pattern and the text after it rebuild the string, as `split(': ', 1)` assumes |
| PyStr.FindInPrefix | tts_generator.py:46 | the text before the first occurrence of a non-empty pattern does not contain it |
| SequenceMatcher.FindLongestMatch | speech_practice.py:55 | `find_longest_match` without junk: the block returned is common to both strings; `LongestMatchIsLongest` states that it is the longest and earliest one |
| SequenceMatcher.LongestMatchIsLongest | speech_practice.py:55 | the longest match is a common block; no common block is longer; among equally long ones it has the smallest `i`, then the smallest `j` |
| SequenceMatcher.LongestIsUnique | speech_practice.py:55 | the two strings determine that block uniquely |
| SequenceMatcher.CommonIsEqualSlices | speech_practice.py:55 | a common block is exactly a pair of equal slices inside both strings |
| SequenceMatcher.MatchingBlocks | speech_practice.py:55 | the blocks of the recursion around the longest match are common and strictly ascending in both strings; they never cover more than either string; when they cover both strings entirely, the strings are equal |
| SequenceMatcher.Total | speech_practice.py:55 | the sum of the block sizes inside `ratio()`; `MatchingBlocks` and `Matches` bound it by both lengths |
| SequenceMatcher.Matches | speech_practice.py:55 | the matched character count is at most either length, and covers both only for equal strings |
| SequenceMatcher.Ratio | speech_practice.py:55 | `ratio()` lies between 0 and 1 |
| SequenceMatcher.RatioIsOneWhenAllMatched | speech_practice.py:55 | the ratio is 1 exactly when twice the matches equals the total length |
| SequenceMatcher.MatchesSelf | speech_practice.py:55 | a string matches itself completely |
| SequenceMatcher.RatioOneIffEqual | speech_practice.py:55 | the ratio is 1 exactly when the strings are equal |
| SequenceMatcher.NoMatchIffNoSharedChar | speech_practice.py:55 | no character is matched exactly when the strings share no character |
| SequenceMatcher.RatioZeroIffDisjoint | speech_practice.py:55 | the ratio is 0 exactly when the strings are not both empty and share no character |
| Practice.IsWordChar | speech_practice.py:51-52 | `\w` on ASCII letters, digits and `_`; `RemovePunctuationFixes` and `CleanIsClean` state what the substitution keeps in terms of it |
| Practice.RemovePunctuation | speech_practice.py:51-52 | `re.sub(r'[^\w\s]', '', s)` keeps only word and whitespace characters and never lengthens the text |
| Practice.RemovePunctuationFixes | speech_practice.py:51-52 | the substitution changes nothing exactly when every character is a word or whitespace character |
| Practice.RemovePunctuationConcat | speech_practice.py:51-52 | the substitution works character by character: it distributes over concatenation |
| Practice.Clean | speech_practice.py:51-52 | `re.sub(r'[^\w\s]', '', s.lower())` never lengthens the text; `CleanIsClean`, `CleanIdempotent` and `CleanConcat` state what it keeps |
| Practice.CleanIsClean | speech_practice.py:51-52 | cleaned text holds only lower-case word and whitespace characters |
| Practice.CleanFixesCleanText | speech_practice.py:51-52 | cleaning leaves such text unchanged |
| Practice.CleanIdempotent | speech_practice.py:51-52 | cleaning twice is cleaning once |
| Practice.CleanConcat | speech_practice.py:51-52 | cleaning distributes over concatenation |
| Practice.RoundHalfEven | speech_practice.py:60 | `round` gives the nearest integer, a tie going to the even one |
| Practice.RoundTenths | speech_practice.py:60 | `round(x, 1)` is within 0.05 of `x` |
| Practice.RoundTenthsOfTenths | speech_practice.py:60 | a whole number of tenths is left as it is |
| Practice.PronunciationScore | speech_practice.py:45-60 | the score lies in [0, 100]; it is 0 when either text is empty as given; otherwise it is within 0.05 of 100 times the ratio of the cleaned texts |
| Practice.ScoreOfSameCleanText | speech_practice.py:45-60 | non-empty texts that clean to the same string score exactly 100 |
| Practice.PerfectScoreMeansSameCleanText | speech_practice.py:45-60 | a score of 100 means the cleaned texts are equal (below 2000 cleaned characters) |
| Practice.ScoreZeroIff | speech_practice.py:45-60 | the score is 0 exactly when a text is empty as given, or the cleaned texts are not both empty and share no character (below 4000 cleaned characters) |
| Practice.AnalyzeFluency | speech_practice.py:62-80 | without words the score is 0; with words and a zero duration it raises `float division by zero`; otherwise it is one of 40, 60, 80, 100 |
| Practice.RateBand | speech_practice.py:71-78 | the band of a words-per-minute rate; `FluencyBands` restates each band as a condition on words and duration |
| Practice.FluencyBands | speech_practice.py:67-78 | for a positive duration, each band holds exactly when `60 * words` lies in that band's range times the duration |
| Practice.PronunciationTier | speech_practice.py:87-94 | the pronunciation message for a score, chosen by the thresholds 90, 80 and 70; `FeedbackShape` places it first |
| Practice.FluencyTier | speech_practice.py:97-102 | the fluency message for a score, chosen by the thresholds 80 and 60; `FeedbackShape` places it second |
| Practice.Difference | speech_practice.py:108-109 | the set difference of two token lists; `DifferenceContents` states that it lists exactly the tokens of the first list not in the second, each once |
| Practice.DifferenceContents | speech_practice.py:106-109 | the listed difference holds each token once, and a token is listed exactly when it is in the first list and not in the second |
| Practice.DifferenceNonEmpty | speech_practice.py:111-114 | something is listed exactly when some token of the first list is missing from the second |
| Practice.MissingWords | speech_practice.py:106-108 | the expected tokens the user did not say; `FeedbackWords` states which they are |
| Practice.ExtraWords | speech_practice.py:106-109 | the tokens the user said that were not expected; `FeedbackWords` states which they are |
| Practice.MissingLine | speech_practice.py:111-112 | the "missing words" line, present only when something is missing |
| Practice.ExtraLine | speech_practice.py:113-114 | the "extra words" line, present only when something is extra |
| Practice.Feedback | speech_practice.py:82-116 | the list `get_feedback` returns, in the order it appends: the two tier messages, then the two word lines only when both texts are non-empty; `FeedbackShape` and `FeedbackWords` state its shape and words |
| Practice.FeedbackShape | speech_practice.py:82-116 | the feedback is one pronunciation message, then one fluency message, then a missing-words line exactly when an expected token was not said, then an extra-words line exactly when a said token was not expected |
| Practice.FeedbackWords | speech_practice.py:104-114 | the two lines list exactly the set differences of the raw tokens, each token once |
| Practice.Transcript | speech_practice.py:34-43 | `speech_to_text`: None when the recognizer fails; `TranscriptNormalised` states what a transcript looks like |
| Practice.TranscriptNormalised | speech_practice.py:34-43 | a transcript has no upper-case letter, is already stripped, and is empty exactly when the recognizer's text was blank |
| Practice.Understood | speech_practice.py:137-140 | `if not user_text` lets the attempt go on: a transcript exists and is not empty; `AttemptFailures` and `AttemptSuccess` branch on it |
| Practice.TranscriptHasWords | speech_practice.py:138-145 | a transcript that passes the emptiness check has at least one word |
| Practice.AudioDuration | speech_practice.py:144 | frames over bytes per second, or the division error; `AudioDurationCases` states when each occurs |
| Practice.AudioDurationCases | speech_practice.py:144 | the duration raises `division by zero` exactly when rate times width is 0; otherwise it is 0 exactly when there are no frames |
| Practice.Attempt | speech_practice.py:118-163 | the record `practice_line` returns; `AttemptFailures` and `AttemptSuccess` state its failures and its success |
| Practice.Unsuccessful | speech_practice.py:120-140 | the initial `result` record with one failure message appended; `AttemptFailures` states which message each failure leaves |
| Practice.AttemptFailures | speech_practice.py:129-161 | each failing step leaves exactly its own message: nothing captured; nothing understood; a zero rate or width; words over zero frames |
| Practice.AttemptSuccess | speech_practice.py:142-158 | an attempt succeeds exactly when audio was captured and understood, its rate and width are non-zero, and it has frames or no words; a success carries the transcript, its pronunciation score, the duration, the fluency score `analyze_fluency` gives for the transcript's own word count over that duration (0 without words, otherwise a band), and the matching feedback |
| Practice.SpeechPractice.constructor | speech_practice.py:9-12 | the recognizer starts with energy threshold 4000 and dynamic adjustment on |
| Practice.SpeechPractice.GetFeedback | speech_practice.py:82-116 | the appended list is the feedback whose shape and words FeedbackShape and FeedbackWords state |
| Practice.SpeechPractice.PracticeLine | speech_practice.py:118-163 | the returned record is the attempt whose failures and success AttemptFailures and AttemptSuccess state |
| TtsGenerator.SpeakerText | tts_generator.py:42-46 | the text spoken for a line; `SpeakerTextNonEmpty`, `SpeakerTextAfterLabel` and `SpeakerTextWithoutLabel` state what it is |
| TtsGenerator.SpeakerTextNonEmpty | tts_generator.py:42-46 | the spoken text of a non-blank line is never empty |
| TtsGenerator.SpeakerTextAfterLabel | tts_generator.py:44-46 | with a `": "`, the label before its first occurrence holds none, and label, separator and text rebuild the stripped line |
| TtsGenerator.SpeakerTextWithoutLabel | tts_generator.py:44-45 | without a `": "`, the text is the stripped line |
| TtsGenerator.Speaks | tts_generator.py:49 | `if audio_data:`: the engine answered with at least one byte |
| TtsGenerator.Kept | tts_generator.py:42-49 | a line yields a segment exactly when it is not blank and the engine speaks its text |
| TtsGenerator.LineSegments | tts_generator.py:42-53 | the segment one line yields, if any; `SegmentsOfOneLine` states it for a single line |
| TtsGenerator.Segments | tts_generator.py:39-55 | the segments `conversation_to_speech` returns; the lemmas below state what they are |
| TtsGenerator.SegmentsAtMostNonBlank | tts_generator.py:41-53 | there are never more segments than non-blank lines |
| TtsGenerator.SegmentsOfOneLine | tts_generator.py:41-53 | a single line yields exactly its own segment: the pair of its spoken text and the engine's audio for that text when it is kept, nothing otherwise |
| TtsGenerator.SegmentsConcat | tts_generator.py:41-55 | lines are handled one by one, in order: the segments of two stretches are the segments of the first followed by those of the second |
| TtsGenerator.SegmentsComeFromLines | tts_generator.py:48-53 | every segment holds some audio, and pairs the spoken text of some non-blank line with exactly what the engine returned for that text |
| TtsGenerator.SegmentsWhenEngineAlwaysSpeaks | tts_generator.py:42-53 | when the engine always returns audio, every non-blank line yields exactly one segment |
| TtsGenerator.SegmentsStep | tts_generator.py:41-53 | taking one more line adds exactly that line's segment, if any |
| TtsGenerator.ConversationToSpeech | tts_generator.py:34-55 | the loop returns the segments that Segments, SegmentsOfOneLine and SegmentsConcat describe |

## Left out

- `record_speech`, `recognize_google`, gTTS and the temporary files are I/O (`speech_practice.py:14-32,36`, `tts_generator.py:6-32`). Their outcomes are inputs. The engine is a pure function of the text, and the language is always English.
- `speech_to_text` catches the two recognizer errors (`speech_practice.py:39-43`) and returns None; the model has only None for both. Any other exception raised inside `practice_line` is not modelled; only the division errors it can raise itself are.
- The `print` diagnostics and the module-level `speech_practice` instance (`speech_practice.py:166`) are not part of this model.
- `app.py`, `fairseq_tts.py`, `generate_speak.py` and `conversation_generator.py` are not part of this model. They are UI, model loading and duplicates of the label-stripping loop.
- Sequence matcher: difflib's automatic junk heuristic is off. It only applies when the second text (the cleaned expected line) has at least 200 characters, and the model uses the no-junk matcher throughout. difflib's final merging of adjacent blocks and its sentinel block do not change the matched total, so the model leaves them out.
- Sequence matcher: the score is not claimed to be symmetric in its two texts.
- Numbers are exact reals, not binary floating point. `round` is modelled on the exact value, and the scores are reals where Python mixes `int` and `float` (`0` versus `0.0`).
- `\w`, `lower()` and upper-case detection are modelled for ASCII letters, digits and `_`. Unicode letters are treated as punctuation, and their case mapping is not modelled. Whitespace follows Python's `str.isspace` list.
- Practice.MissingWords / Practice.ExtraWords: Python joins a `set`, in an order of its own. The model lists each token once, in order of first appearance, and `FeedbackShape` and `GetFeedback` commit to that order. Once two or more tokens are listed, the exact line can therefore differ from Python's.
- Practice.PerfectScoreMeansSameCleanText: stated only below 2000 cleaned characters in total. Beyond that, one unmatched character can disappear in rounding.
- Practice.ScoreZeroIff: stated only below 4000 cleaned characters in total, for the same reason.
- `if not audio` is modelled as "nothing captured". A captured `AudioData` object is always truthy.
