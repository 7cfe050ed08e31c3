/**
 * `process_youtube_video` (ytsum.py): video id, transcript, transcript file,
 * notes from the model, note files, stopping at the first step that yields
 * nothing (`None` or an empty string).
 *
 * The caption service is `captionsFor`, what it offers for each video id;
 * the formatter is `format`; the model's answers are `translate` and `generate`.
 */
module Pipeline {
  import opened Wrappers
  import opened Strings
  import opened VideoUrl
  import opened Effects
  import opened Transcript
  import opened OutputWriter

  /** The file name stem handed to `save_to_file`. */
  function Stem(id: string): string { "video_" + id }

  function TranscriptFile(id: string): string { Stem(id) + "_transcript.txt" }

  /** What `save_to_file` is given to do with the model's answer: nothing when the answer is missing or empty. */
  function NotesLog(answer: Option<string>, stem: string): seq<Event>
  {
    match answer
    case None => []
    case Some(notes) => if notes == "" then [] else SaveLog(notes, stem)
  }

  /** What happens once the transcript step is over: nothing without a non-empty transcript. */
  function TranscriptLog(id: string, transcript: Option<TranscriptResult>, generate: string -> Option<string>): seq<Event>
  {
    match transcript
    case None => []
    case Some(t) =>
      if t.text == "" then []
      else [Wrote(TranscriptFile(id), t.text), Generated(t.text)] + NotesLog(generate(t.text), Stem(id))
  }

  /** Everything one run does to the world, in order. */
  function RunLog(url: string, captionsFor: string -> CaptionSource, format: Captions -> string,
                  translate: (string, string) -> Option<string>, generate: string -> Option<string>): seq<Event>
  {
    match ExtractVideoId(url)
    case None => []
    case Some(id) =>
      TranslationCalls(captionsFor(id), format) + TranscriptLog(id, Acquire(captionsFor(id), format, translate), generate)
  }

  /** `process_youtube_video`. */
  method ProcessYoutubeVideo(w: World, url: string, captionsFor: string -> CaptionSource,
                             format: Captions -> string, translate: (string, string) -> Option<string>,
                             generate: string -> Option<string>)
    modifies w
    ensures w.log == old(w.log) + RunLog(url, captionsFor, format, translate, generate)
  {
    ghost var start := w.log;
    var videoId := ExtractVideoId(url);
    if videoId.None? {
      return;   // invalid URL
    }
    var id := videoId.value;
    var source := captionsFor(id);
    var transcript := GetTranscript(w, source, format, translate);
    ghost var calls := TranslationCalls(source, format);
    RunLogOfId(url, captionsFor, format, translate, generate, id);
    if transcript.None? || transcript.value.text == "" {
      assert TranscriptLog(id, transcript, generate) == [];
      Regroup(start, calls, []);
      return;   // no transcript
    }
    var text := transcript.value.text;
    w.WriteFile(TranscriptFile(id), text);
    var notes := w.Generate(generate, text);
    ghost var saved := [Wrote(TranscriptFile(id), text), Generated(text)];
    if notes.None? || notes.value == "" {
      assert TranscriptLog(id, transcript, generate) == saved + [];
      assert w.log == start + (calls + (saved + [])) by {
        calc {
          w.log;
          start + calls + [saved[0]] + [saved[1]];
          { Regroup(start + calls, [saved[0]], [saved[1]]); assert [saved[0]] + [saved[1]] == saved; }
          start + calls + saved;
          { Regroup(start, calls, saved); }
          start + (calls + (saved + []));
        }
      }
      return;   // no notes
    }
    SaveToFile(w, notes.value, Stem(id));
    ghost var rest := SaveLog(notes.value, Stem(id));
    assert w.log == start + (calls + (saved + rest)) by {
      calc {
        w.log;
        start + calls + [saved[0]] + [saved[1]] + rest;
        { Regroup(start + calls, [saved[0]], [saved[1]]); assert [saved[0]] + [saved[1]] == saved; }
        start + calls + saved + rest;
        { Regroup(start + calls, saved, rest); }
        start + calls + (saved + rest);
        { Regroup(start, calls, saved + rest); }
        start + (calls + (saved + rest));
      }
    }
  }

  /** A run on a URL with a video id is the transcript step followed by what comes after it. */
  lemma RunLogOfId(url: string, captionsFor: string -> CaptionSource, format: Captions -> string,
                   translate: (string, string) -> Option<string>, generate: string -> Option<string>, id: string)
    requires ExtractVideoId(url) == Some(id)
    ensures RunLog(url, captionsFor, format, translate, generate)
            == TranslationCalls(captionsFor(id), format) + TranscriptLog(id, Acquire(captionsFor(id), format, translate), generate)
  {
  }

  // ---------------------------------------------------------------------------
  // Properties

  /** A URL with no video id does nothing at all. */
  lemma InvalidUrlDoesNothing(url: string, captionsFor: string -> CaptionSource, format: Captions -> string,
                              translate: (string, string) -> Option<string>, generate: string -> Option<string>)
    requires ExtractVideoId(url).None?
    ensures RunLog(url, captionsFor, format, translate, generate) == []
  {
  }

  /**
   * Without a transcript (none found, translation failed, or empty text) no
   * file is written and the notes are never asked for; at most the
   * translation was attempted.
   */
  lemma NoTranscriptNoFiles(url: string, captionsFor: string -> CaptionSource, format: Captions -> string,
                            translate: (string, string) -> Option<string>, generate: string -> Option<string>)
    requires ExtractVideoId(url).Some?
    requires var t := Acquire(captionsFor(ExtractVideoId(url).value), format, translate);
             t.None? || t.value.text == ""
    ensures var log := RunLog(url, captionsFor, format, translate, generate);
            Writes(log) == [] && forall e :: e in log ==> e.Translated?
  {
  }

  /** When the model gives no notes, the transcript file is the only file written. */
  lemma NoNotesOnlyTranscript(url: string, captionsFor: string -> CaptionSource, format: Captions -> string,
                              translate: (string, string) -> Option<string>, generate: string -> Option<string>)
    requires ExtractVideoId(url).Some?
    requires var t := Acquire(captionsFor(ExtractVideoId(url).value), format, translate);
             t.Some? && t.value.text != "" && (generate(t.value.text).None? || generate(t.value.text) == Some(""))
    ensures var id := ExtractVideoId(url).value;
            var t := Acquire(captionsFor(id), format, translate).value;
            Writes(RunLog(url, captionsFor, format, translate, generate)) == [Wrote(TranscriptFile(id), t.text)]
  {
    var id := ExtractVideoId(url).value;
    var source := captionsFor(id);
    var t := Acquire(source, format, translate);
    RunLogOfId(url, captionsFor, format, translate, generate, id);
    CallsAreTranslations(source, format);
    TranscriptOnlyWrite(id, t.value, generate);
    WritesOfAppend(TranslationCalls(source, format), TranscriptLog(id, t, generate));
  }

  /** The translation step writes no file and asks for no notes. */
  lemma CallsAreTranslations(source: CaptionSource, format: Captions -> string)
    ensures Writes(TranslationCalls(source, format)) == []
    ensures forall e :: e in TranslationCalls(source, format) ==> e.Translated?
  {
    var calls := TranslationCalls(source, format);
    if calls != [] {
      assert calls[1..] == [];
    }
  }

  lemma TranscriptOnlyWrite(id: string, t: TranscriptResult, generate: string -> Option<string>)
    requires t.text != "" && (generate(t.text).None? || generate(t.text) == Some(""))
    ensures Writes(TranscriptLog(id, Some(t), generate)) == [Wrote(TranscriptFile(id), t.text)]
  {
    var saved := [Wrote(TranscriptFile(id), t.text), Generated(t.text)];
    assert TranscriptLog(id, Some(t), generate) == saved + [];
    assert saved[1..] == [saved[1]];
    assert saved[1..][1..] == [];
  }

  /** Every prompt for notes in `log` comes right after writing that same, non-empty text to the file `name`. */
  ghost predicate NotesFollowTranscript(log: seq<Event>, name: string)
  {
    forall g :: 0 <= g < |log| && log[g].Generated? ==>
      0 < g && log[g - 1] == Wrote(name, log[g].transcript) && log[g].transcript != ""
  }

  /** Events that are not prompts for notes can come first without breaking the order. */
  lemma NotesFollowTranscriptAfter(a: seq<Event>, b: seq<Event>, name: string)
    requires forall e :: e in a ==> !e.Generated?
    requires NotesFollowTranscript(b, name)
    ensures NotesFollowTranscript(a + b, name)
  {
    var log := a + b;
    forall g | 0 <= g < |a| ensures !log[g].Generated? {
      assert log[g] == a[g];
      assert a[g] in a;
    }
    forall g | 0 <= g < |log| && log[g].Generated?
      ensures 0 < g && log[g - 1] == Wrote(name, log[g].transcript) && log[g].transcript != ""
    {
      assert g >= |a|;
      assert log[g] == b[g - |a|];
      assert log[g - 1] == b[g - |a| - 1];
    }
  }

  /** After the transcript step, the one prompt for notes follows the transcript file. */
  lemma TranscriptLogOrder(id: string, t: Option<TranscriptResult>, generate: string -> Option<string>)
    ensures NotesFollowTranscript(TranscriptLog(id, t, generate), TranscriptFile(id))
  {
    if t.Some? && t.value.text != "" {
      var notes := NotesLog(generate(t.value.text), Stem(id));
      NotesLogOnlyWrites(generate(t.value.text), Stem(id));
      WriteThenPrompt(TranscriptFile(id), t.value.text, notes);
    }
  }

  lemma WriteThenPrompt(name: string, text: string, rest: seq<Event>)
    requires text != ""
    requires forall e :: e in rest ==> e.Wrote?
    ensures NotesFollowTranscript([Wrote(name, text), Generated(text)] + rest, name)
  {
    var log := [Wrote(name, text), Generated(text)] + rest;
    forall g | 2 <= g < |log| ensures log[g].Wrote? {
      assert log[g] == rest[g - 2];
      assert rest[g - 2] in rest;
    }
  }

  /** Saving the notes only writes files. */
  lemma NotesLogOnlyWrites(answer: Option<string>, stem: string)
    ensures forall e :: e in NotesLog(answer, stem) ==> e.Wrote?
  {
    if answer.Some? && answer.value != "" {
      var log := SaveLog(answer.value, stem);
      assert forall k :: 0 <= k < |log| ==> log[k].Wrote?;
    }
  }

  /**
   * The notes are asked for only once the transcript is saved: every prompt
   * to the model for notes comes right after writing that same, non-empty
   * text to `video_<id>_transcript.txt`.
   */
  lemma TranscriptSavedBeforeNotes(url: string, captionsFor: string -> CaptionSource, format: Captions -> string,
                                   translate: (string, string) -> Option<string>, generate: string -> Option<string>)
    ensures ExtractVideoId(url).Some? ==>
              NotesFollowTranscript(RunLog(url, captionsFor, format, translate, generate), TranscriptFile(ExtractVideoId(url).value))
  {
    if ExtractVideoId(url).Some? {
      var id := ExtractVideoId(url).value;
      var source := captionsFor(id);
      RunLogOfId(url, captionsFor, format, translate, generate, id);
      CallsAreTranslations(source, format);
      TranscriptLogOrder(id, Acquire(source, format, translate), generate);
      NotesFollowTranscriptAfter(TranslationCalls(source, format), TranscriptLog(id, Acquire(source, format, translate), generate),
                                 TranscriptFile(id));
    }
  }

  /** The transcript file never has the name of one of the note files. */
  lemma TranscriptFileDistinct(id: string)
    ensures TranscriptFile(id) != FullFile(Stem(id))
    ensures TranscriptFile(id) != NotesFile(Stem(id))
    ensures TranscriptFile(id) != SummaryFile(Stem(id))
  {
    var k := |Stem(id)| + 1;
    assert TranscriptFile(id)[k] == 't';
    assert FullFile(Stem(id))[k] == 'f';
    assert NotesFile(Stem(id))[k] == 'n';
    assert SummaryFile(Stem(id))[k] == 's';
  }

  /**
   * A whole run on a watch URL for a video with English captions, when the
   * model's answer holds one "SUMMARY:": the transcript file, the notes
   * prompt, then the full, notes and summary files, all named after the id.
   */
  lemma WatchUrlEndToEnd(id: string, captionsFor: string -> CaptionSource, format: Captions -> string,
                         translate: (string, string) -> Option<string>, generate: string -> Option<string>)
    requires IsVideoId(id) && captionsFor(id).english.Some?
    requires var text := format(captionsFor(id).english.value);
             text != "" && generate(text).Some? && OccursOnce(generate(text).value, SUMMARY_MARKER)
    ensures var text := format(captionsFor(id).english.value);
            var answer := generate(text).value;
            var sections := ParseSections(answer);
            && sections.Some?
            && RunLog("https://www.youtube.com/watch?v=" + id, captionsFor, format, translate, generate) ==
                 [ Wrote("video_" + id + "_transcript.txt", text), Generated(text),
                   Wrote("video_" + id + "_full.txt", answer),
                   Wrote("video_" + id + "_notes.txt", sections.value.notes),
                   Wrote("video_" + id + "_summary.txt", sections.value.summary) ]
  {
    var url := "https://www.youtube.com/watch?v=" + id;
    WatchUrl(id);
    RunLogOfId(url, captionsFor, format, translate, generate, id);
    var answer := generate(format(captionsFor(id).english.value)).value;
    SectionsIffOneMarker(answer);
    EnglishRun(id, captionsFor(id), format, translate, generate);
  }

  /** The run for a video id whose English captions are found and whose notes split into sections. */
  lemma EnglishRun(id: string, source: CaptionSource, format: Captions -> string,
                   translate: (string, string) -> Option<string>, generate: string -> Option<string>)
    requires source.english.Some?
    requires var text := format(source.english.value);
             text != "" && generate(text).Some? && ParseSections(generate(text).value).Some?
    ensures var text := format(source.english.value);
            var answer := generate(text).value;
            var sections := ParseSections(answer).value;
            TranslationCalls(source, format) + TranscriptLog(id, Acquire(source, format, translate), generate) ==
              [ Wrote(TranscriptFile(id), text), Generated(text),
                Wrote(FullFile(Stem(id)), answer),
                Wrote(NotesFile(Stem(id)), sections.notes),
                Wrote(SummaryFile(Stem(id)), sections.summary) ]
  {
    var text := format(source.english.value);
    EnglishIsNeverTranslated(source, format, translate);
    TranscriptAndSections(id, TranscriptResult(text, ENGLISH), generate);
    assert TranslationCalls(source, format) == [];
  }

  /** A non-empty transcript whose notes split into sections: five events in all. */
  lemma TranscriptAndSections(id: string, t: TranscriptResult, generate: string -> Option<string>)
    requires t.text != "" && generate(t.text).Some? && ParseSections(generate(t.text).value).Some?
    ensures var answer := generate(t.text).value;
            var sections := ParseSections(answer).value;
            TranscriptLog(id, Some(t), generate) ==
              [ Wrote(TranscriptFile(id), t.text), Generated(t.text) ] +
              [ Wrote(FullFile(Stem(id)), answer),
                Wrote(NotesFile(Stem(id)), sections.notes),
                Wrote(SummaryFile(Stem(id)), sections.summary) ]
  {
    var answer := generate(t.text).value;
    assert answer != "" by { NoSectionsInEmpty(); }
    TranscriptThenNotes(id, t, generate);
    SaveLogOfSections(answer, Stem(id));
  }

  /** A non-empty transcript with a non-empty answer: the transcript file, the prompt, then `save_to_file`. */
  lemma TranscriptThenNotes(id: string, t: TranscriptResult, generate: string -> Option<string>)
    requires t.text != "" && generate(t.text).Some? && generate(t.text).value != ""
    ensures TranscriptLog(id, Some(t), generate) ==
              [Wrote(TranscriptFile(id), t.text), Generated(t.text)] + SaveLog(generate(t.text).value, Stem(id))
  {
  }

  lemma NoSectionsInEmpty()
    ensures ParseSections("").None?
  {
    assert Split("", SUMMARY_MARKER) == [""];
  }
}
