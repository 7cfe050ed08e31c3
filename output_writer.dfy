/**
 * `save_to_file` (ytsum.py): the model's answer is written whole to
 * `<stem>_full.txt`; when "SUMMARY:" splits it into exactly two pieces, the
 * piece before it (with every "NOTES:" removed, then stripped) goes to
 * `<stem>_notes.txt` and the piece after it (stripped) to `<stem>_summary.txt`.
 */
module OutputWriter {
  import opened Wrappers
  import opened Strings
  import opened Effects

  const SUMMARY_MARKER := "SUMMARY:"
  const NOTES_LABEL := "NOTES:"

  function FullFile(stem: string): string { stem + "_full.txt" }
  function NotesFile(stem: string): string { stem + "_notes.txt" }
  function SummaryFile(stem: string): string { stem + "_summary.txt" }

  /** What goes to the notes file and to the summary file. */
  datatype Sections = Sections(notes: string, summary: string)

  /** Neither marker can overlap an occurrence of itself, so `split` cuts cleanly. */
  lemma MarkersHeadUnique()
    ensures HeadUnique(SUMMARY_MARKER) && HeadUnique(NOTES_LABEL)
  {
  }

  /**
   * The separate sections, present when `split` gives exactly two pieces
   * (see `SectionsIffOneMarker`); both come out stripped and the summary
   * never holds the marker.
   */
  function ParseSections(content: string): (r: Option<Sections>)
    ensures r.Some? ==> IsStripped(r.value.notes) && IsStripped(r.value.summary)
    ensures r.Some? ==> !Contains(r.value.summary, SUMMARY_MARKER)
  {
    var parts := Split(content, SUMMARY_MARKER);
    if |parts| == 2 then
      SplitPiecesFree(content, SUMMARY_MARKER);
      StripKeepsAbsence(parts[1], SUMMARY_MARKER);
      Some(Sections(Strip(RemoveAll(parts[0], NOTES_LABEL)), Strip(parts[1])))
    else
      None
  }

  /** There are separate sections exactly when "SUMMARY:" occurs once in the answer. */
  lemma SectionsIffOneMarker(content: string)
    ensures ParseSections(content).Some? <==> OccursOnce(content, SUMMARY_MARKER)
  {
    MarkersHeadUnique();
    SplitTwoIffOnce(content, SUMMARY_MARKER);
  }

  /** The files `save_to_file` writes, in order. */
  function SaveLog(content: string, stem: string): seq<Event>
  {
    [Wrote(FullFile(stem), content)] +
    match ParseSections(content)
    case None => []
    case Some(s) => [Wrote(NotesFile(stem), s.notes), Wrote(SummaryFile(stem), s.summary)]
  }

  /** `save_to_file`. */
  method SaveToFile(w: World, content: string, stem: string)
    modifies w
    ensures w.log == old(w.log) + SaveLog(content, stem)
  {
    ghost var start := w.log;
    var full := Wrote(FullFile(stem), content);
    w.WriteFile(FullFile(stem), content);
    var sections := ParseSections(content);
    if sections.Some? {
      var notes := Wrote(NotesFile(stem), sections.value.notes);
      var summary := Wrote(SummaryFile(stem), sections.value.summary);
      w.WriteFile(NotesFile(stem), sections.value.notes);
      w.WriteFile(SummaryFile(stem), sections.value.summary);
      calc {
        w.log;
        start + [full] + [notes] + [summary];
        { Regroup(start + [full], [notes], [summary]); }
        start + [full] + ([notes] + [summary]);
        { assert [notes] + [summary] == [notes, summary]; }
        start + [full] + [notes, summary];
        { Regroup(start, [full], [notes, summary]); }
        start + ([full] + [notes, summary]);
      }
    } else {
      assert SaveLog(content, stem) == [full] + [];
    }
  }

  /** An answer with sections gives exactly three writes: full, notes, summary. */
  lemma SaveLogOfSections(content: string, stem: string)
    requires ParseSections(content).Some?
    ensures var sections := ParseSections(content).value;
            SaveLog(content, stem) == [ Wrote(FullFile(stem), content),
                                        Wrote(NotesFile(stem), sections.notes),
                                        Wrote(SummaryFile(stem), sections.summary) ]
  {
  }

  // ---------------------------------------------------------------------------
  // Properties

  /**
   * The sections are read off around the one occurrence of the marker: the
   * notes from what precedes it, the summary from what follows it.
   */
  lemma SectionsAroundMarker(content: string)
    requires ParseSections(content).Some?
    ensures exists i :: OccursAt(content, SUMMARY_MARKER, i) &&
              ParseSections(content).value ==
                Sections(Strip(RemoveAll(content[..i], NOTES_LABEL)), Strip(content[i + |SUMMARY_MARKER|..]))
  {
    var parts := Split(content, SUMMARY_MARKER);
    SplitJoinRoundTrip(content, SUMMARY_MARKER);
    assert Join(parts, SUMMARY_MARKER) == parts[0] + SUMMARY_MARKER + parts[1];
    var i := |parts[0]|;
    assert content[..i] == parts[0];
    assert content[i..i + |SUMMARY_MARKER|] == SUMMARY_MARKER;
    assert content[i + |SUMMARY_MARKER|..] == parts[1];
  }

  /** When the split gives two pieces, they and the marker make up the whole answer again. */
  lemma PartsRejoin(content: string)
    requires |Split(content, SUMMARY_MARKER)| == 2
    ensures var parts := Split(content, SUMMARY_MARKER);
            parts[0] + SUMMARY_MARKER + parts[1] == content
  {
    var parts := Split(content, SUMMARY_MARKER);
    SplitJoinRoundTrip(content, SUMMARY_MARKER);
    assert Join(parts, SUMMARY_MARKER) == parts[0] + SUMMARY_MARKER + parts[1];
  }

  /**
   * When the answer holds no "NOTES:", nothing is removed from the notes
   * and so nothing can join into a "SUMMARY:": the notes are free of it too.
   */
  lemma NotesFreeOfMarker(content: string)
    requires ParseSections(content).Some?
    requires !Contains(content, NOTES_LABEL)
    ensures !Contains(ParseSections(content).value.notes, SUMMARY_MARKER)
  {
    var parts := Split(content, SUMMARY_MARKER);
    PartsRejoin(content);
    var n := |parts[0]|;
    assert content[..n] == parts[0];
    forall j | 0 <= j <= n ensures !OccursAt(parts[0], NOTES_LABEL, j) {
      OccursInSlice(content, NOTES_LABEL, 0, n, j);
    }
    RemoveAllUnchangedIffAbsent(parts[0], NOTES_LABEL);
    SplitPiecesFree(content, SUMMARY_MARKER);
    assert !Contains(parts[0], SUMMARY_MARKER);
    StripKeepsAbsence(parts[0], SUMMARY_MARKER);
  }

  /** A label followed by text free of the marker is itself free of the marker. */
  lemma LabelKeepsMarkerOut(body: string)
    requires !Contains(body, SUMMARY_MARKER)
    ensures !Contains(NOTES_LABEL + body, SUMMARY_MARKER)
  {
    var x := NOTES_LABEL + body;
    var n := |NOTES_LABEL|;
    forall i | 0 <= i <= |x| ensures !OccursAt(x, SUMMARY_MARKER, i) {
      if i >= n {
        if i + |SUMMARY_MARKER| <= |x| {
          OccursFromWhole(x, SUMMARY_MARKER, n, |x|, i);
          assert x[n..] == body;
        }
      } else if i + |SUMMARY_MARKER| <= |x| {
        assert x[i..i + |SUMMARY_MARKER|][0] == x[i] == NOTES_LABEL[i];
        assert x[i..i + |SUMMARY_MARKER|][1] == x[i + 1];
        assert i == 4 ==> x[i + 1] == ':';
      }
    }
  }

  /**
   * The layout the notes prompt asks the model for parses back: "NOTES:", the
   * notes, "SUMMARY:", the summary give the stripped notes and the stripped summary.
   */
  lemma PromptLayoutRoundTrip(notes: string, summary: string)
    requires !Contains(notes, NOTES_LABEL) && !Contains(notes, SUMMARY_MARKER)
    requires !Contains(summary, SUMMARY_MARKER)
    ensures ParseSections(NOTES_LABEL + notes + SUMMARY_MARKER + summary)
            == Some(Sections(Strip(notes), Strip(summary)))
  {
    var a := NOTES_LABEL + notes;
    LabelKeepsMarkerOut(notes);
    MarkersHeadUnique();
    SplitOfJoinedPair(a, SUMMARY_MARKER, summary);
    RemoveAllOfLeading(NOTES_LABEL, notes);
  }

  /** With framing whitespace around stripped texts, the files hold exactly those texts. */
  lemma StrippedSectionsRoundTrip(notes: string, summary: string, s1: string, s2: string, s3: string, s4: string)
    requires IsStripped(notes) && IsStripped(summary)
    requires AllSpace(s1) && AllSpace(s2) && AllSpace(s3) && AllSpace(s4)
    requires !Contains(s1 + notes + s2, NOTES_LABEL) && !Contains(s1 + notes + s2, SUMMARY_MARKER)
    requires !Contains(s3 + summary + s4, SUMMARY_MARKER)
    ensures ParseSections(NOTES_LABEL + (s1 + notes + s2) + SUMMARY_MARKER + (s3 + summary + s4))
            == Some(Sections(notes, summary))
  {
    PromptLayoutRoundTrip(s1 + notes + s2, s3 + summary + s4);
    StripUnique(s1, notes, s2);
    StripUnique(s3, summary, s4);
  }

  /**
   * The full answer is always written, and first; the two section files
   * follow exactly when the marker occurs once, and hold the parsed sections.
   */
  lemma SaveLogShape(content: string, stem: string)
    ensures SaveLog(content, stem)[0] == Wrote(FullFile(stem), content)
    ensures |SaveLog(content, stem)| == (if OccursOnce(content, SUMMARY_MARKER) then 3 else 1)
    ensures ParseSections(content).Some? ==>
              SaveLog(content, stem)[1] == Wrote(NotesFile(stem), ParseSections(content).value.notes) &&
              SaveLog(content, stem)[2] == Wrote(SummaryFile(stem), ParseSections(content).value.summary)
  {
    SectionsIffOneMarker(content);
  }

  /** The three files have different names, so none overwrites another. */
  lemma FileNamesDistinct(stem: string)
    ensures FullFile(stem) != NotesFile(stem)
    ensures FullFile(stem) != SummaryFile(stem)
    ensures NotesFile(stem) != SummaryFile(stem)
  {
    var k := |stem| + 1;
    assert FullFile(stem)[k] == 'f';
    assert NotesFile(stem)[k] == 'n';
    assert SummaryFile(stem)[k] == 's';
  }

  // ---------------------------------------------------------------------------
  // What the parse does not promise

  /**
   * Removing "NOTES:" can join the text around it into a new "SUMMARY:", so
   * the notes file may hold the marker.
   */
  lemma NotesMayHoldMarker()
    ensures ParseSections("SUMMNOTES:ARY:" + SUMMARY_MARKER) == Some(Sections(SUMMARY_MARKER, ""))
  {
    SplitsAfterJoinedMarker();
    RemovalJoinsMarker();
    StripUnique("", SUMMARY_MARKER, "");
    assert "" + SUMMARY_MARKER + "" == SUMMARY_MARKER;
    StripUnique("", "", "");
  }

  lemma SplitsAfterJoinedMarker()
    ensures Split("SUMMNOTES:ARY:" + SUMMARY_MARKER, SUMMARY_MARKER) == ["SUMMNOTES:ARY:", ""]
  {
    var a := "SUMMNOTES:ARY:";
    forall i | 0 <= i <= |a| ensures !OccursAt(a, SUMMARY_MARKER, i) {
      if i + |SUMMARY_MARKER| <= |a| {
        assert a[i..i + |SUMMARY_MARKER|][0] == a[i];
        assert a[i..i + |SUMMARY_MARKER|][4] == a[i + 4];
      }
    }
    MarkersHeadUnique();
    SplitOfJoinedPair(a, SUMMARY_MARKER, "");
    assert a + SUMMARY_MARKER + "" == a + SUMMARY_MARKER;
  }

  lemma RemovalJoinsMarker()
    ensures RemoveAll("SUMMNOTES:ARY:", NOTES_LABEL) == SUMMARY_MARKER
  {
    var a := "SUMMNOTES:ARY:";
    assert OccursAt(a, NOTES_LABEL, 4);
    forall j | 0 <= j < 4 ensures !OccursAt(a, NOTES_LABEL, j) {
      assert a[j..j + |NOTES_LABEL|][0] == a[j];
    }
    assert Find(a, NOTES_LABEL, 0) == Some(4);
    assert a[10..] == "ARY:";
    assert Find("ARY:", NOTES_LABEL, 0).None?;
    assert a[..4] + "ARY:" == SUMMARY_MARKER;
  }

  /**
   * The removal is a single pass, so "NOTES:" can survive in the notes when
   * removing one occurrence joins the text around it into another.
   */
  lemma NotesMayHoldLabel()
    ensures RemoveAll("NONOTES:TES:", NOTES_LABEL) == NOTES_LABEL
  {
    var a := "NONOTES:TES:";
    assert OccursAt(a, NOTES_LABEL, 2);
    forall j | 0 <= j < 2 ensures !OccursAt(a, NOTES_LABEL, j) {
      assert a[j..j + |NOTES_LABEL|][1] == a[j + 1];
    }
    assert Find(a, NOTES_LABEL, 0) == Some(2);
    assert a[8..] == "TES:";
    assert Find("TES:", NOTES_LABEL, 0).None?;
    assert a[..2] + "TES:" == NOTES_LABEL;
  }
}
