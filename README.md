# ytsum in Dafny

A model of `ytsum.py`, a script that turns a YouTube URL into study notes.
The script extracts the video id from the URL. It fetches the captions,
preferring English, and has the Gemini model translate them when their language code
is not exactly `en`. It writes the transcript to a file and asks the model for
notes and a summary. It then writes the answer whole, and also split into a
notes file and a summary file when it has exactly one `SUMMARY:` marker.

The model has seven modules, one file each:

- `Wrappers` (`wrappers.dfy`): the `Option` type.
- `Strings` (`strings.dfy`): the Python `str` operations the script uses, over
  `seq<char>`. These are `split`, `replace(pat, "")` and `strip()`, with
  `strip()` using Python's full `str.isspace()` set. `Find` (a leftmost
  search) and `Join` are helpers that define `split` and state its round trip.
- `VideoUrl` (`video_url.dfy`): `extract_video_id`. Each regular expression is
  an explicit leftmost search over the URL. Pattern 1 tries its three
  alternatives in order at one index. Pattern 2's lazy `.*?` takes the
  nearest `&v=` that is followed by an id and not behind a newline.
- `Effects` (`effects.dfy`): the world outside the script as a class `World`
  with an append-only log of events. An event is a file write, a translation
  prompt or a notes prompt. The model's answers come in as function
  parameters.
- `Transcript` (`transcript.dfy`): `get_transcript`. The caption service is a
  `CaptionSource`: the English-only fetch as an `Option` and the track list as
  a sequence. `SelectTrack` runs the two `for … else` scans.
- `OutputWriter` (`output_writer.dfy`): `save_to_file`. `ParseSections` is the
  split and trim; `SaveToFile` writes the files.
- `Pipeline` (`pipeline.dfy`): `process_youtube_video`, which stops at the
  first step that yields `None` or an empty string.

Each method that changes the world is proved against a function that gives
exactly the events it appends: `TranslationCalls`, `SaveLog` and `RunLog`.
The lemmas state the script's promises about those functions.

Two behaviours of `ytsum.py` are worth knowing:

- `save_to_file` removes every `NOTES:` in the piece before the marker, not
  only a leading label, and does so in one pass (ytsum.py:123). So the notes
  can still hold `NOTES:` (`NotesMayHoldLabel`) and can even gain a
  `SUMMARY:` (`NotesMayHoldMarker`).
- A listed track coded exactly `en` is used without translation even after
  the English-only fetch failed (ytsum.py:46, 53, 60;
  `ListedEnglishIsNotTranslated`).

## Model

| member | source | states |
|---|---|---|
| VideoUrl.IsIdChar | ytsum.py:20 | A definition with no contract: the character class `[a-zA-Z0-9_-]`. |
| VideoUrl.IsVideoId | ytsum.py:20 | A definition with no contract: what the capture group `([a-zA-Z0-9_-]{11})` can hold, 11 characters of that class. |
| VideoUrl.IdAt | ytsum.py:20 | A capture at `i` is a valid id that occurs in the URL at `i`. |
| VideoUrl.AfterLiteral | ytsum.py:20 | A match of one literal alternative at `i` has the literal at `i`, followed by an 11-character id from `[a-zA-Z0-9_-]`. Conversely, the literal at `i` followed by 11 such characters is a match, and its capture is exactly those 11 characters. |
| VideoUrl.GapFree | ytsum.py:21 | A definition with no contract: no newline in the gap, since `.` does not match one. `LazyParam` and `LazyParamIsNearest` state how the gap is used. |
| VideoUrl.LazyParam | ytsum.py:21 | `.*?&v=(…)` yields the id after the nearest `&v=` that has an id, with no newline in the gap. When it yields nothing, no `&v=` reachable without a newline has an id after it. |
| VideoUrl.MatchAt | ytsum.py:19-22 | A pattern matched at one index captures a valid id that occurs in the URL. A match of pattern 1 has one of its three literals at that index. Whichever literal occurs there decides the match: the result is that literal's match, whose capture is the 11 characters right after it. A match of pattern 2 has `youtube.com/watch?` at that index; `AmpersandAtQuery` states what it captures. |
| VideoUrl.AmpersandAtQuery | ytsum.py:21 | Where `youtube.com/watch?` occurs at an index, pattern 2 matched there captures exactly what the lazy `.*?&v=` reaches from the end of that literal: the id after the nearest `&v=` that has one and is not behind a newline. |
| VideoUrl.Search | ytsum.py:25 | `re.search` returns the match at the leftmost index where the pattern matches. It returns none exactly when the pattern matches at no index. |
| VideoUrl.ExtractVideoId | ytsum.py:17-29 | A returned id has 11 characters from `[a-zA-Z0-9_-]` and occurs in the URL. `None` is returned exactly when neither pattern matches anywhere. |
| VideoUrl.SearchIsLeftmost | ytsum.py:25-27 | Any match with no match before it is the one `re.search` reports. |
| VideoUrl.PrefixedWins | ytsum.py:24-27 | When pattern 1 matches, its leftmost match is the result and pattern 2 is not consulted. |
| VideoUrl.AmpersandFallback | ytsum.py:24-29 | When pattern 1 matches nowhere, the leftmost match of pattern 2 is the result. |
| VideoUrl.PrefixesExclusive | ytsum.py:20 | At one index at most one of the three prefixes of pattern 1 occurs, so the leftmost match is unique. |
| VideoUrl.MatchStartsWithY | ytsum.py:20-21 | Every match starts with a `y`, the first character of each literal. |
| VideoUrl.NoLiteralNoId | ytsum.py:24-29 | A URL without `youtu.be/`, `youtube.com/embed/` and `youtube.com/watch?` gives `None`. |
| VideoUrl.NoMatchBeforeY | ytsum.py:20-21 | No match starts before the first `y` of the URL. |
| VideoUrl.WatchUrl | ytsum.py:19-27 | `https://www.youtube.com/watch?v=<id>` gives `<id>` for every valid id. |
| VideoUrl.ShortUrl | ytsum.py:19-27 | `https://youtu.be/<id>` gives `<id>` for every valid id. |
| VideoUrl.EmbedUrl | ytsum.py:19-27 | `https://www.youtube.com/embed/<id>` gives `<id>` for every valid id. |
| VideoUrl.LazyParamIsNearest | ytsum.py:21 | The nearest `&v=` that has an id and no newline before it is the one the lazy gap takes. |
| VideoUrl.AmpersandUrlHasNoPrefix | ytsum.py:20 | Pattern 1 matches nowhere in `https://www.youtube.com/watch?feature=x&v=<id>`. |
| VideoUrl.AmpersandUrlParam | ytsum.py:21 | Pattern 2 matches `https://www.youtube.com/watch?feature=x&v=<id>` at `youtube.com` and captures `<id>`. |
| VideoUrl.AmpersandUrl | ytsum.py:19-27 | `https://www.youtube.com/watch?feature=x&v=<id>` gives `<id>` through pattern 2. |
| Transcript.FirstWith | ytsum.py:43-54 | A scan for `is_generated == g` stops at the first track with that flag. It finds nothing only when no track has it. |
| Transcript.Preferred | ytsum.py:43-54 | The first manual track is chosen when there is one, even with generated tracks before it. Otherwise the first track is chosen. An empty list gives nothing. |
| Transcript.SelectTrack | ytsum.py:43-54 | The two `for … else` loops with `break` pick exactly the `Preferred` track. |
| Transcript.GetTranscript | ytsum.py:31-78 | The result is `Acquire` of the captions on offer. The world gains exactly `TranslationCalls`: one translation prompt, sent only when the code is not `en`. |
| Transcript.Chosen | ytsum.py:35-54 | Captions and a language are settled on unless the English fetch failed and the track list is empty. After a successful English fetch they are the English captions with code `en`. After a failed one they are the captions and code of the `Preferred` track: the first manual track, else the first generated one. |
| Transcript.Acquire | ytsum.py:35-78 | The value `get_transcript` returns. A result always carries the language code that was settled on. |
| Transcript.NoTranscriptIff | ytsum.py:35-78 | There is no transcript exactly when no captions were settled on, or the code is not exactly `en` and the translation call failed. |
| Transcript.EnglishIsNeverTranslated | ytsum.py:35-75 | After a successful English fetch the result is the formatted English captions with language `en`, and the model is not called. |
| Transcript.NoTrackNoTranscript | ytsum.py:40-78 | With no English captions and an empty track list, there is no transcript and no model call. |
| Transcript.ResultLanguageAndText | ytsum.py:36-75 | After a successful English fetch the language is `en`. Otherwise it is the chosen track's code. The text is the formatted captions when the code is exactly `en` and the model's translation when it is not. |
| Transcript.TranslationCalls | ytsum.py:60-73 | A definition with no contract: the model calls `get_transcript` makes. `TranslatedIffNotEnglish` states its property. |
| Transcript.TranslatedIffNotEnglish | ytsum.py:60-73 | A translation prompt is sent if and only if a language was settled on and it is not exactly `en`. |
| Transcript.RegionalEnglishIsTranslated | ytsum.py:60-73 | A track coded `en-US` is sent for translation, because the comparison is exact. |
| Transcript.ListedEnglishIsNotTranslated | ytsum.py:48-75 | A listed track coded exactly `en` is not translated even though the English fetch failed, so `en` does not imply that the fetch succeeded. |
| Transcript.ManualBeatsEarlierGenerated | ytsum.py:43-47 | With any manual track in the list, a manual track is chosen, and it is at or before every manual track. |
| Strings.Find | ytsum.py:121 | The search reports the first occurrence at or after the start, or none when there is no occurrence. |
| Strings.FindNoneIffAbsent | ytsum.py:121 | The search fails exactly when the pattern does not occur. |
| Strings.Split | ytsum.py:121 | `str.split` always returns at least one piece. |
| Strings.SplitJoinRoundTrip | ytsum.py:121 | Joining the pieces of a split with the separator gives back the original string. |
| Strings.SplitPiecesFree | ytsum.py:121 | No piece of a split contains the separator. |
| Strings.SplitTwoIffOnce | ytsum.py:121-122 | For a separator that cannot overlap itself, the split has two pieces if and only if the separator occurs exactly once. |
| Strings.SplitOfJoinedPair | ytsum.py:121 | Splitting `a + sep + b` gives `[a, b]` when neither contains `sep`. |
| Strings.RemoveAll | ytsum.py:123 | `replace(pat, "")` never makes a string longer. |
| Strings.RemoveAllIsJoinOfSplit | ytsum.py:123 | `replace(pat, "")` equals joining the pieces of `split(pat)` with no separator. |
| Strings.RemoveAllUnchangedIffAbsent | ytsum.py:123 | The removal leaves the text unchanged if and only if the pattern does not occur in it. |
| Strings.RemoveAllOfLeading | ytsum.py:123 | Removing a label from the label followed by text without the label gives the text. |
| Strings.IsSpace | ytsum.py:123-124 | A definition with no contract. It gives the whitespace that `strip()` removes: Python's `str.isspace()` set, U+0009..U+000D, U+001C..U+0020, U+0085, U+00A0, U+1680, U+2000..U+200A, U+2028, U+2029, U+202F, U+205F and U+3000. |
| Strings.StripLeft | ytsum.py:123-124 | The result is a suffix that starts with a non-space, after a dropped prefix of whitespace. |
| Strings.StripRight | ytsum.py:123-124 | The result is a prefix that ends with a non-space, before a dropped suffix of whitespace. |
| Strings.Strip | ytsum.py:123-124 | `strip()` returns a slice of the input that neither begins nor ends with whitespace and has only whitespace around it. |
| Strings.StripUnique | ytsum.py:123-124 | Stripping whitespace framing a stripped text gives exactly that text. |
| Strings.StripKeepsAbsence | ytsum.py:123-124 | Stripping cannot create an occurrence of a pattern. |
| OutputWriter.ParseSections | ytsum.py:121-124 | Both sections neither begin nor end with whitespace, and the summary contains no `SUMMARY:`. |
| OutputWriter.SectionsIffOneMarker | ytsum.py:121-122 | The answer is split into sections if and only if `SUMMARY:` occurs in it exactly once. |
| OutputWriter.SectionsAroundMarker | ytsum.py:121-124 | Split sections are the stripped text before the only `SUMMARY:` (with every `NOTES:` removed) and the stripped text after it. |
| OutputWriter.PartsRejoin | ytsum.py:121-122 | When the split gives two pieces, `parts[0] + "SUMMARY:" + parts[1]` is the answer. |
| OutputWriter.NotesFreeOfMarker | ytsum.py:121-123 | When the answer has no `NOTES:`, the notes contain no `SUMMARY:`. |
| OutputWriter.LabelKeepsMarkerOut | ytsum.py:121-123 | Putting `NOTES:` before a text without `SUMMARY:` creates no `SUMMARY:`. |
| OutputWriter.PromptLayoutRoundTrip | ytsum.py:121-124 | An answer laid out as the prompt asks, `NOTES:` notes `SUMMARY:` summary, gives back the stripped notes and summary. This holds when the notes contain neither marker and the summary has no `SUMMARY:`. |
| OutputWriter.StrippedSectionsRoundTrip | ytsum.py:121-124 | With only whitespace around stripped notes and summary, the files receive exactly the notes and the summary. |
| OutputWriter.SaveLog | ytsum.py:116-130 | A definition with no contract: the writes `save_to_file` makes, in order. `SaveLogShape` and `SaveLogOfSections` state its properties. |
| OutputWriter.SaveToFile | ytsum.py:113-140 | The world gains exactly `SaveLog`: the full answer, then the notes and summary files when the answer has sections. |
| OutputWriter.SaveLogOfSections | ytsum.py:116-130 | An answer with sections gives exactly three writes: the full answer, the notes and the summary, in that order. |
| OutputWriter.SaveLogShape | ytsum.py:116-138 | The first write is always `<stem>_full.txt` with the answer unchanged. There are three writes if `SUMMARY:` occurs exactly once and one write otherwise. With sections, the second and third writes are the notes and summary files. |
| OutputWriter.FullFile | ytsum.py:117 | A definition with no contract: `<stem>_full.txt`. `FileNamesDistinct` states its property. |
| OutputWriter.NotesFile | ytsum.py:126 | A definition with no contract: `<stem>_notes.txt`. `FileNamesDistinct` states its property. |
| OutputWriter.SummaryFile | ytsum.py:129 | A definition with no contract: `<stem>_summary.txt`. `FileNamesDistinct` states its property. |
| OutputWriter.FileNamesDistinct | ytsum.py:117-129 | The full, notes and summary files have three different names, so no write overwrites another. |
| OutputWriter.NotesMayHoldMarker | ytsum.py:121-123 | The answer `SUMMNOTES:ARY:SUMMARY:` has one marker, but removing `NOTES:` joins `SUMM` and `ARY:`, so the notes file receives `SUMMARY:`. |
| OutputWriter.NotesMayHoldLabel | ytsum.py:123 | A single removal pass over `NONOTES:TES:` leaves `NOTES:`, so the notes can still contain the label. |
| Effects.World.WriteFile | ytsum.py:117-118 | Writing a file appends that write to the world and changes nothing else. |
| Effects.World.Translate | ytsum.py:62-73 | A translation request appends its prompt to the world and returns the model's answer. |
| Effects.World.Generate | ytsum.py:80-111 | A notes request appends its prompt to the world and returns the model's answer, or `None` when the call fails. |
| Effects.Writes | ytsum.py:117-160 | The file writes of a log are exactly its `Wrote` events: every one is kept and nothing else is. Their order is fixed by `WritesOfAppend`. |
| Effects.WritesOfAppend | ytsum.py:117-160 | The writes of two logs in sequence are the writes of the first followed by the writes of the second. |
| Pipeline.NotesLog | ytsum.py:166-171 | A definition with no contract: nothing when the notes are missing or empty, otherwise `SaveLog`. `NotesLogOnlyWrites` states its property. |
| Pipeline.TranscriptLog | ytsum.py:154-171 | A definition with no contract: the events after the transcript step. `TranscriptLogOrder`, `TranscriptOnlyWrite` and `TranscriptAndSections` state its properties. |
| Pipeline.RunLog | ytsum.py:142-173 | A definition with no contract: every event of one run, in order. `InvalidUrlDoesNothing`, `NoTranscriptNoFiles`, `NoNotesOnlyTranscript` and `TranscriptSavedBeforeNotes` state its properties. |
| Pipeline.ProcessYoutubeVideo | ytsum.py:142-173 | The world gains exactly `RunLog`. That is the translation prompt, the transcript file, the notes prompt and `save_to_file`'s writes, up to the first step that yields `None` or an empty string. |
| Pipeline.InvalidUrlDoesNothing | ytsum.py:145-148 | A URL with no video id causes no write and no model call. |
| Pipeline.NoTranscriptNoFiles | ytsum.py:153-156 | With no transcript, or an empty one, nothing is written. The only events are translation prompts. |
| Pipeline.NoNotesOnlyTranscript | ytsum.py:158-168 | When the model gives no notes, or empty notes, the only file written is `video_<id>_transcript.txt`, holding the transcript. |
| Pipeline.CallsAreTranslations | ytsum.py:59-73 | The transcript step writes no file; its only events are translation prompts. |
| Pipeline.TranscriptOnlyWrite | ytsum.py:158-168 | Without notes, the transcript file is the only write after the transcript step. |
| Pipeline.TranscriptLogOrder | ytsum.py:158-171 | After the transcript step, the notes prompt comes right after the write of `video_<id>_transcript.txt` with the same text. |
| Pipeline.NotesLogOnlyWrites | ytsum.py:170-171 | Saving the notes only writes files. |
| Pipeline.TranscriptSavedBeforeNotes | ytsum.py:158-165 | In every run on a URL with an id, each notes prompt comes right after `video_<id>_transcript.txt` is written with that same non-empty text. |
| Pipeline.Stem | ytsum.py:171 | A definition with no contract: the stem `video_<id>` handed to `save_to_file`. |
| Pipeline.TranscriptFile | ytsum.py:159 | A definition with no contract: `video_<id>_transcript.txt`. `TranscriptFileDistinct` states its property. |
| Pipeline.TranscriptFileDistinct | ytsum.py:159-171 | The transcript file never has the name of one of the three note files. |
| Pipeline.EnglishRun | ytsum.py:152-171 | With English captions and an answer that has sections, a run on an id gives five events: transcript file, notes prompt, full, notes and summary files. |
| Pipeline.TranscriptAndSections | ytsum.py:158-171 | A non-empty transcript with an answer that has sections gives the transcript write, the prompt and the three note files, in that order. |
| Pipeline.WatchUrlEndToEnd | ytsum.py:142-173 | For a watch URL with English captions and an answer with one `SUMMARY:`, the run writes `video_<id>_transcript.txt`, prompts for notes, and writes `video_<id>_full.txt`, `_notes.txt` and `_summary.txt`, in that order. |

## Left out

- The Gemini calls (`model.generate_content`) and the prompt texts are not modelled. The model's answers are the parameters `translate` and `generate`, and a failing call is `None`. The translation prompt is recorded as its language and text, and the notes prompt as its transcript.
- `YouTubeTranscriptApi.get_transcript`, `list_transcripts` and `TextFormatter.format_transcript` are third-party code. They become a `CaptionSource` per video id and a text function `format`.
- A failing `list_transcripts` is not distinguished from an empty track list. Both give no transcript.
- `t.fetch()` is assumed to succeed. A fetch that raises would also give no transcript.
- Failing file writes are not modelled: the `except` of `save_to_file` (ytsum.py:139-140) and a failing `open` in `process_youtube_video` (ytsum.py:159-160). Every write is assumed to succeed.
- All `print` output is left out; it has no effect on the files or the calls.
- Loading `.env`, configuring the API and building the model (ytsum.py:9-15) are left out.
- The `__main__` block (ytsum.py:175-186) is left out: the `.env` prompt and `input()`. The URL is the parameter of `ProcessYoutubeVideo`.
- Encodings are not modelled. Files are written as UTF-8 and strings are sequences of Unicode characters.
