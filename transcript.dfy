/**
 * `get_transcript` (ytsum.py): the English captions if the English-only
 * fetch succeeds; otherwise the first manually made track, or failing that
 * the first generated one; then a translation through the model whenever
 * the language code is not exactly "en".
 *
 * The caption service is represented by what it returns for one video
 * (`CaptionSource`), the transcript formatter by a function from captions to
 * text, and the model's translation by a function that may fail.
 */
module Transcript {
  import opened Wrappers
  import opened Effects

  /** The caption snippets a fetch returns. */
  type Captions = seq<string>

  /** One entry of `list_transcripts`: its language code, whether it was generated, and what `fetch()` returns. */
  datatype Track = Track(lang: string, isGenerated: bool, captions: Captions)

  /** What the caption service offers for one video: the English-only fetch (`None` if it raised) and the track list. */
  datatype CaptionSource = CaptionSource(english: Option<Captions>, tracks: seq<Track>)

  /** `(text_transcript, detected_language)`. */
  datatype TranscriptResult = TranscriptResult(text: string, lang: string)

  const ENGLISH := "en"

  /** The index of the first track whose `is_generated` flag is `generated`. */
  function FirstWith(tracks: seq<Track>, generated: bool): (k: Option<nat>)
    ensures k.Some? ==> k.value < |tracks| && tracks[k.value].isGenerated == generated
    ensures k.Some? ==> forall j :: 0 <= j < k.value ==> tracks[j].isGenerated != generated
    ensures k.None? ==> forall j :: 0 <= j < |tracks| ==> tracks[j].isGenerated != generated
  {
    if tracks == [] then None
    else if tracks[0].isGenerated == generated then Some(0)
    else
      match FirstWith(tracks[1..], generated)
      case None => None
      case Some(k) => Some(k + 1)
  }

  predicate HasManual(tracks: seq<Track>)
  {
    exists j :: 0 <= j < |tracks| && !tracks[j].isGenerated
  }

  /**
   * The track the two `for` loops settle on: the first manual track, even
   * when generated ones come before it; with no manual track, the first
   * generated one, which is then the first track of all; none for an empty list.
   */
  function Preferred(tracks: seq<Track>): (k: Option<nat>)
    ensures k.None? <==> tracks == []
    ensures k.Some? ==> k.value < |tracks|
    ensures HasManual(tracks) ==>
              k.Some? && !tracks[k.value].isGenerated && forall j :: 0 <= j < k.value ==> tracks[j].isGenerated
    ensures !HasManual(tracks) && tracks != [] ==> k == Some(0)
  {
    var manual := FirstWith(tracks, false);
    if manual.Some? then manual else FirstWith(tracks, true)
  }

  /** The `for … else` scans of `get_transcript`, loop for loop. */
  method SelectTrack(tracks: seq<Track>) returns (k: Option<nat>)
    ensures k == Preferred(tracks)
  {
    k := None;
    for i := 0 to |tracks|
      invariant forall j :: 0 <= j < i ==> tracks[j].isGenerated
    {
      if !tracks[i].isGenerated {
        k := Some(i);
        break;
      }
    }
    if k.None? {
      // The `else` of the first loop: it ran to the end without `break`.
      for i := 0 to |tracks|
        invariant forall j :: 0 <= j < i ==> !tracks[j].isGenerated
      {
        if tracks[i].isGenerated {
          k := Some(i);
          break;
        }
      }
    }
  }

  /** The captions and language code settled on, before formatting and translation. */
  function Chosen(source: CaptionSource): (r: Option<(Captions, string)>)
    ensures r.None? <==> source.english.None? && source.tracks == []
    ensures source.english.Some? ==> r == Some((source.english.value, ENGLISH))
    ensures source.english.None? && source.tracks != [] ==>
              var k := Preferred(source.tracks).value;
              r == Some((source.tracks[k].captions, source.tracks[k].lang))
  {
    if source.english.Some? then Some((source.english.value, ENGLISH))
    else
      match Preferred(source.tracks)
      case None => None
      case Some(k) => Some((source.tracks[k].captions, source.tracks[k].lang))
  }

  /**
   * The value `get_transcript` returns; `None` stands for `(None, None)`: no
   * track at all (the formatter then raises `NameError`) or a failed translation.
   */
  function Acquire(source: CaptionSource, format: Captions -> string,
                   translate: (string, string) -> Option<string>): (r: Option<TranscriptResult>)
    ensures r.Some? ==> Chosen(source).Some? && r.value.lang == Chosen(source).value.1
  {
    match Chosen(source)
    case None => None
    case Some((captions, lang)) =>
      if lang == ENGLISH then Some(TranscriptResult(format(captions), lang))
      else
        match translate(lang, format(captions))
        case None => None
        case Some(t) => Some(TranscriptResult(t, lang))
  }

  /** The calls to the model `get_transcript` makes: one translation, exactly when the code is not "en". */
  function TranslationCalls(source: CaptionSource, format: Captions -> string): seq<Event>
  {
    match Chosen(source)
    case None => []
    case Some((captions, lang)) => if lang != ENGLISH then [Translated(lang, format(captions))] else []
  }

  /** `get_transcript`. */
  method GetTranscript(w: World, source: CaptionSource, format: Captions -> string,
                       translate: (string, string) -> Option<string>)
    returns (r: Option<TranscriptResult>)
    modifies w
    ensures r == Acquire(source, format, translate)
    ensures w.log == old(w.log) + TranslationCalls(source, format)
  {
    var captions: Captions;
    var lang: string;
    if source.english.Some? {
      captions, lang := source.english.value, ENGLISH;
    } else {
      var k := SelectTrack(source.tracks);
      if k.None? {
        // Neither loop bound `transcript_list`: the formatter call raises.
        return None;
      }
      captions, lang := source.tracks[k.value].captions, source.tracks[k.value].lang;
    }
    var text := format(captions);
    if lang != ENGLISH {
      var translated := w.Translate(translate, lang, text);
      if translated.None? {
        return None;
      }
      text := translated.value;
    }
    r := Some(TranscriptResult(text, lang));
  }

  // ---------------------------------------------------------------------------
  // Properties

  /** A successful English fetch is taken as it is: language "en", no call to the model. */
  lemma EnglishIsNeverTranslated(source: CaptionSource, format: Captions -> string,
                                 translate: (string, string) -> Option<string>)
    requires source.english.Some?
    ensures Acquire(source, format, translate) == Some(TranscriptResult(format(source.english.value), ENGLISH))
    ensures TranslationCalls(source, format) == []
  {
  }

  /** With no English captions and no track, there is no transcript and no call to the model. */
  lemma NoTrackNoTranscript(source: CaptionSource, format: Captions -> string,
                            translate: (string, string) -> Option<string>)
    requires source.english.None? && source.tracks == []
    ensures Acquire(source, format, translate).None?
    ensures TranslationCalls(source, format) == []
  {
  }

  /**
   * The language reported is "en" after a successful English fetch and the
   * chosen track's code otherwise; the text is the formatted captions when
   * that code is exactly "en" and the model's translation when it is not.
   */
  lemma ResultLanguageAndText(source: CaptionSource, format: Captions -> string,
                              translate: (string, string) -> Option<string>)
    requires Acquire(source, format, translate).Some?
    ensures var res := Acquire(source, format, translate).value;
            var k := Preferred(source.tracks);
            && (source.english.Some? ==> res.lang == ENGLISH && res.text == format(source.english.value))
            && (source.english.None? ==>
                  k.Some? && res.lang == source.tracks[k.value].lang &&
                  res.text == (if res.lang == ENGLISH then format(source.tracks[k.value].captions)
                               else translate(res.lang, format(source.tracks[k.value].captions)).value))
  {
  }

  /** The model is asked to translate exactly when a language was settled on and it is not exactly "en". */
  lemma TranslatedIffNotEnglish(source: CaptionSource, format: Captions -> string)
    ensures TranslationCalls(source, format) != [] <==> Chosen(source).Some? && Chosen(source).value.1 != ENGLISH
  {
  }

  /**
   * There is no transcript exactly when no captions were settled on, or the
   * language is not "en" and the call to the model for the translation failed.
   */
  lemma NoTranscriptIff(source: CaptionSource, format: Captions -> string,
                        translate: (string, string) -> Option<string>)
    ensures Acquire(source, format, translate).None? <==>
              || (source.english.None? && source.tracks == [])
              || (Chosen(source).Some? && Chosen(source).value.1 != ENGLISH &&
                  translate(Chosen(source).value.1, format(Chosen(source).value.0)).None?)
  {
  }

  /** A regional code such as "en-US" is not "en", so it is translated. */
  lemma RegionalEnglishIsTranslated(captions: Captions, format: Captions -> string)
    ensures TranslationCalls(CaptionSource(None, [Track("en-US", false, captions)]), format)
            == [Translated("en-US", format(captions))]
  {
    var tracks := [Track("en-US", false, captions)];
    assert HasManual(tracks) by { assert !tracks[0].isGenerated; }
  }

  /**
   * The language is "en" not only when the English fetch succeeded: a listed
   * track whose code is exactly "en" is taken as it is, without translation.
   */
  lemma ListedEnglishIsNotTranslated(captions: Captions, format: Captions -> string,
                                     translate: (string, string) -> Option<string>)
    ensures var source := CaptionSource(None, [Track(ENGLISH, true, captions)]);
            Acquire(source, format, translate) == Some(TranscriptResult(format(captions), ENGLISH)) &&
            TranslationCalls(source, format) == []
  {
    var tracks := [Track(ENGLISH, true, captions)];
    assert !HasManual(tracks);
  }

  /** A manual track wins over every generated track, even those listed before it. */
  lemma ManualBeatsEarlierGenerated(tracks: seq<Track>, m: nat)
    requires m < |tracks| && !tracks[m].isGenerated
    ensures Preferred(tracks).Some? && !tracks[Preferred(tracks).value].isGenerated
    ensures Preferred(tracks).value <= m
  {
  }
}
