/**
 * What the script does to the world outside it, in the order it does it:
 * the text files it writes and the prompts it sends to the Gemini model.
 * The model's answers are not computed here; they come in as functions.
 */
module Effects {
  import opened Wrappers

  datatype Event =
    | Wrote(name: string, content: string)     // open(name, "w").write(content)
    | Translated(lang: string, text: string)   // the translation prompt for `text`, from `lang`
    | Generated(transcript: string)            // the notes-and-summary prompt for `transcript`

  /** The outside world as the script sees it: an append-only record of effects. */
  class World {
    var log: seq<Event>

    constructor()
      ensures log == []
    {
      log := [];
    }

    /** Write `content` to the file `name` (overwriting it). */
    method WriteFile(name: string, content: string)
      modifies this
      ensures log == old(log) + [Wrote(name, content)]
    {
      log := log + [Wrote(name, content)];
    }

    /**
     * One call to the model with the translation prompt. `translate` is the
     * model's answer, `None` when the call raises.
     */
    method Translate(translate: (string, string) -> Option<string>, lang: string, text: string)
      returns (r: Option<string>)
      modifies this
      ensures r == translate(lang, text)
      ensures log == old(log) + [Translated(lang, text)]
    {
      log := log + [Translated(lang, text)];
      r := translate(lang, text);
    }

    /**
     * One call to the model with the notes prompt (`generate_notes_with_gemini`).
     * `generate` is the model's answer, `None` when the call raises.
     */
    method Generate(generate: string -> Option<string>, transcript: string) returns (r: Option<string>)
      modifies this
      ensures r == generate(transcript)
      ensures log == old(log) + [Generated(transcript)]
    {
      log := log + [Generated(transcript)];
      r := generate(transcript);
    }
  }

  /** The file writes of a log, in order (the order is what `WritesOfAppend` pins down). */
  function Writes(log: seq<Event>): (w: seq<Event>)
    ensures |w| <= |log|
    ensures forall e :: e in w ==> e.Wrote? && e in log
    ensures forall e :: e in log && e.Wrote? ==> e in w
  {
    if log == [] then []
    else (if log[0].Wrote? then [log[0]] else []) + Writes(log[1..])
  }

  /** Taking the writes of a log commutes with appending logs. */
  lemma {:induction false} WritesOfAppend(a: seq<Event>, b: seq<Event>)
    ensures Writes(a + b) == Writes(a) + Writes(b)
  {
    if a == [] {
      assert a + b == b;
    } else {
      assert (a + b)[1..] == a[1..] + b;
      WritesOfAppend(a[1..], b);
    }
  }

  /** Regrouping appended logs, so that a log grown step by step can be compared with one built in one go. */
  lemma Regroup(a: seq<Event>, b: seq<Event>, c: seq<Event>)
    ensures a + b + c == a + (b + c)
  {
  }
}
