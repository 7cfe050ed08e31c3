/**
 * `extract_video_id` (ytsum.py): two regular expressions are tried in order
 * and the first one that matches anywhere in the URL gives the identifier.
 * Python's `re.search` is modelled as an explicit leftmost search over the
 * characters of the URL.
 *
 *   pattern 1: (?:youtube\.com/watch\?v=|youtu\.be/|youtube\.com/embed/)([a-zA-Z0-9_-]{11})
 *   pattern 2: youtube\.com/watch\?.*?&v=([a-zA-Z0-9_-]{11})
 */
module VideoUrl {
  import opened Wrappers
  import opened Strings

  const ID_LENGTH := 11
  const WATCH_PREFIX := "youtube.com/watch?v="
  const SHORT_PREFIX := "youtu.be/"
  const EMBED_PREFIX := "youtube.com/embed/"
  const WATCH_QUERY := "youtube.com/watch?"
  const V_PARAM := "&v="

  /** The character class `[a-zA-Z0-9_-]`. */
  predicate IsIdChar(c: char)
  {
    ('a' <= c <= 'z') || ('A' <= c <= 'Z') || ('0' <= c <= '9') || c == '_' || c == '-'
  }

  /** What the capture group `([a-zA-Z0-9_-]{11})` can hold. */
  predicate IsVideoId(s: string)
  {
    |s| == ID_LENGTH && forall k :: 0 <= k < |s| ==> IsIdChar(s[k])
  }

  /** The capture group matched at index `i`. */
  function IdAt(url: string, i: nat): (r: Option<string>)
    ensures r.Some? ==> IsVideoId(r.value) && OccursAt(url, r.value, i)
  {
    if i + ID_LENGTH <= |url| && IsVideoId(url[i..i + ID_LENGTH]) then Some(url[i..i + ID_LENGTH])
    else None
  }

  /** The literal `lit` at index `i`, immediately followed by the capture group. */
  function AfterLiteral(url: string, lit: string, i: nat): (r: Option<string>)
    ensures r.Some? ==> OccursAt(url, lit, i) && IsVideoId(r.value) && OccursAt(url, r.value, i + |lit|)
    ensures (OccursAt(url, lit, i) && i + |lit| + ID_LENGTH <= |url| &&
             IsVideoId(url[i + |lit|..i + |lit| + ID_LENGTH])) ==>
              r == Some(url[i + |lit|..i + |lit| + ID_LENGTH])
  {
    if OccursAt(url, lit, i) then IdAt(url, i + |lit|) else None
  }

  /** The two regular expressions, in the order the source tries them. */
  datatype Pattern = Prefixed | AmpersandV

  /** No newline among `url[j..k]` (the regex `.` does not match one). */
  predicate GapFree(url: string, j: nat, k: nat)
    requires j <= k <= |url|
  {
    forall m :: j <= m < k ==> url[m] != '\n'
  }

  /**
   * `.*?&v=([a-zA-Z0-9_-]{11})` matched from index `j`: the lazy gap makes it
   * the nearest `&v=` with an identifier after it that is not behind a newline.
   */
  function LazyParam(url: string, j: nat): (r: Option<string>)
    decreases |url| - j
    ensures r.Some? ==> exists k :: j <= k <= |url| && GapFree(url, j, k) && AfterLiteral(url, V_PARAM, k) == r &&
                                   forall m :: j <= m < k ==> AfterLiteral(url, V_PARAM, m).None?
    ensures r.None? ==> forall k :: j <= k <= |url| && GapFree(url, j, k) ==> AfterLiteral(url, V_PARAM, k).None?
  {
    if j > |url| then None
    else if AfterLiteral(url, V_PARAM, j).Some? then AfterLiteral(url, V_PARAM, j)
    else if j < |url| && url[j] != '\n' then LazyParam(url, j + 1)
    else None
  }

  /** The pattern anchored at index `i`; the value is its capture group. */
  function MatchAt(p: Pattern, url: string, i: nat): (r: Option<string>)
    ensures r.Some? ==> IsVideoId(r.value) && Contains(url, r.value)
    ensures p == Prefixed && r.Some? ==>
              OccursAt(url, WATCH_PREFIX, i) || OccursAt(url, SHORT_PREFIX, i) || OccursAt(url, EMBED_PREFIX, i)
    // The alternatives cannot start at the same index, so whichever occurs decides.
    ensures p == Prefixed && OccursAt(url, WATCH_PREFIX, i) ==> r == AfterLiteral(url, WATCH_PREFIX, i)
    ensures p == Prefixed && OccursAt(url, SHORT_PREFIX, i) ==> r == AfterLiteral(url, SHORT_PREFIX, i)
    ensures p == Prefixed && OccursAt(url, EMBED_PREFIX, i) ==> r == AfterLiteral(url, EMBED_PREFIX, i)
    ensures p == AmpersandV && r.Some? ==> OccursAt(url, WATCH_QUERY, i)
  {
    PrefixesExclusive(url, i);
    match p
    case Prefixed =>
      // The alternatives are tried left to right at the same index.
      var watch := AfterLiteral(url, WATCH_PREFIX, i);
      if watch.Some? then watch
      else
        var short := AfterLiteral(url, SHORT_PREFIX, i);
        if short.Some? then short else AfterLiteral(url, EMBED_PREFIX, i)
    case AmpersandV =>
      if OccursAt(url, WATCH_QUERY, i) then LazyParam(url, i + |WATCH_QUERY|) else None
  }

  /**
   * Pattern 2 at an index holding `youtube.com/watch?` captures what the lazy
   * gap reaches from the end of that literal. This is a lemma rather than a
   * clause of `MatchAt`, so that `Search` does not meet a `LazyParam` term at
   * every index it visits.
   */
  lemma AmpersandAtQuery(url: string, i: nat)
    requires OccursAt(url, WATCH_QUERY, i)
    ensures MatchAt(AmpersandV, url, i) == LazyParam(url, i + |WATCH_QUERY|)
  {
  }

  /** Python's `re.search(p, url[i:])`: the match that starts leftmost, at or after `i`. */
  function Search(p: Pattern, url: string, i: nat): (r: Option<string>)
    decreases |url| + 1 - i
    ensures r.Some? ==> exists k :: i <= k <= |url| && MatchAt(p, url, k) == r &&
                                   forall m :: i <= m < k ==> MatchAt(p, url, m).None?
    ensures r.None? ==> forall k :: i <= k <= |url| ==> MatchAt(p, url, k).None?
  {
    if i > |url| then None
    else
      var here := MatchAt(p, url, i);
      if here.Some? then here else Search(p, url, i + 1)
  }

  /** `extract_video_id`: pattern 1 anywhere, else pattern 2 anywhere, else `None`. */
  function ExtractVideoId(url: string): (r: Option<string>)
    ensures r.Some? ==> IsVideoId(r.value) && Contains(url, r.value)
    ensures r.None? <==> (forall k :: 0 <= k <= |url| ==> MatchAt(Prefixed, url, k).None?) &&
                         (forall k :: 0 <= k <= |url| ==> MatchAt(AmpersandV, url, k).None?)
  {
    var first := Search(Prefixed, url, 0);
    if first.Some? then first else Search(AmpersandV, url, 0)
  }

  // ---------------------------------------------------------------------------
  // Properties

  /** The leftmost index where a pattern matches is the one `Search` reports. */
  lemma SearchIsLeftmost(p: Pattern, url: string, i: nat, k: nat)
    requires i <= k <= |url| && MatchAt(p, url, k).Some?
    requires forall m :: i <= m < k ==> MatchAt(p, url, m).None?
    ensures Search(p, url, i) == MatchAt(p, url, k)
  {
  }

  /** Pattern 1, wherever it matches first, decides the result; pattern 2 is not consulted. */
  lemma PrefixedWins(url: string, k: nat)
    requires k <= |url| && MatchAt(Prefixed, url, k).Some?
    requires forall m :: 0 <= m < k ==> MatchAt(Prefixed, url, m).None?
    ensures ExtractVideoId(url) == MatchAt(Prefixed, url, k)
  {
    SearchIsLeftmost(Prefixed, url, 0, k);
  }

  /** Only when pattern 1 matches nowhere does the leftmost match of pattern 2 decide. */
  lemma AmpersandFallback(url: string, k: nat)
    requires forall m :: 0 <= m <= |url| ==> MatchAt(Prefixed, url, m).None?
    requires k <= |url| && MatchAt(AmpersandV, url, k).Some?
    requires forall m :: 0 <= m < k ==> MatchAt(AmpersandV, url, m).None?
    ensures ExtractVideoId(url) == MatchAt(AmpersandV, url, k)
  {
    SearchIsLeftmost(AmpersandV, url, 0, k);
  }

  /** At one index at most one of the three alternatives of pattern 1 can start. */
  lemma PrefixesExclusive(url: string, i: nat)
    ensures !(OccursAt(url, WATCH_PREFIX, i) && OccursAt(url, SHORT_PREFIX, i))
    ensures !(OccursAt(url, WATCH_PREFIX, i) && OccursAt(url, EMBED_PREFIX, i))
    ensures !(OccursAt(url, SHORT_PREFIX, i) && OccursAt(url, EMBED_PREFIX, i))
  {
    if OccursAt(url, SHORT_PREFIX, i) {
      assert url[i + 5] == SHORT_PREFIX[5] == '.';
      assert i + |WATCH_PREFIX| <= |url| ==> url[i..i + |WATCH_PREFIX|][5] == '.';
      assert i + |EMBED_PREFIX| <= |url| ==> url[i..i + |EMBED_PREFIX|][5] == '.';
    }
    if OccursAt(url, WATCH_PREFIX, i) {
      assert url[i + 12] == WATCH_PREFIX[12] == 'w';
      assert i + |EMBED_PREFIX| <= |url| ==> url[i..i + |EMBED_PREFIX|][12] == 'w';
    }
  }

  /** Every literal the patterns start with begins with 'y'. */
  lemma MatchStartsWithY(p: Pattern, url: string, i: nat)
    requires MatchAt(p, url, i).Some?
    ensures i < |url| && url[i] == 'y'
  {
    var lit := if p == AmpersandV then WATCH_QUERY
               else if AfterLiteral(url, WATCH_PREFIX, i).Some? then WATCH_PREFIX
               else if AfterLiteral(url, SHORT_PREFIX, i).Some? then SHORT_PREFIX
               else EMBED_PREFIX;
    assert OccursAt(url, lit, i);
    assert url[i..i + |lit|][0] == url[i];
  }

  /**
   * A URL that holds none of the literals `youtu.be/`, `youtube.com/embed/`
   * and `youtube.com/watch?` (so not `youtube.com/watch?v=` either) gives no
   * identifier.
   */
  lemma NoLiteralNoId(url: string)
    requires !Contains(url, SHORT_PREFIX) && !Contains(url, EMBED_PREFIX) && !Contains(url, WATCH_QUERY)
    ensures ExtractVideoId(url) == None
  {
    forall k | 0 <= k <= |url| ensures !OccursAt(url, WATCH_PREFIX, k) {
      if OccursAt(url, WATCH_PREFIX, k) {
        assert url[k..k + |WATCH_QUERY|] == url[k..k + |WATCH_PREFIX|][..|WATCH_QUERY|];
        assert OccursAt(url, WATCH_QUERY, k);
      }
    }
  }

  /** No match can start before the first 'y' of the URL. */
  lemma NoMatchBeforeY(p: Pattern, url: string, k: nat)
    requires k <= |url|
    requires forall m :: 0 <= m < k ==> url[m] != 'y'
    ensures forall m :: 0 <= m < k ==> MatchAt(p, url, m).None?
  {
    forall m | 0 <= m < k ensures MatchAt(p, url, m).None? {
      if MatchAt(p, url, m).Some? {
        MatchStartsWithY(p, url, m);
      }
    }
  }

  /** A literal head followed by an identifier: indexing and slicing inside the head. */
  lemma HeadThenId(head: string, id: string, lo: nat, hi: nat)
    requires lo <= hi <= |head|
    ensures (head + id)[lo..hi] == head[lo..hi]
    ensures (head + id)[|head|..|head| + |id|] == id
  {
  }

  /** `https://www.youtube.com/watch?v=<id>` gives `<id>`. */
  lemma WatchUrl(id: string)
    requires IsVideoId(id)
    ensures ExtractVideoId("https://www.youtube.com/watch?v=" + id) == Some(id)
  {
    var head := "https://www.youtube.com/watch?v=";
    var url := head + id;
    HeadThenId(head, id, 12, 32);
    assert forall m :: 0 <= m < 12 ==> url[m] == head[m] != 'y';
    NoMatchBeforeY(Prefixed, url, 12);
    assert OccursAt(url, WATCH_PREFIX, 12);
    assert IdAt(url, 32) == Some(id);
    PrefixedWins(url, 12);
  }

  /** `https://youtu.be/<id>` gives `<id>`. */
  lemma ShortUrl(id: string)
    requires IsVideoId(id)
    ensures ExtractVideoId("https://youtu.be/" + id) == Some(id)
  {
    var head := "https://youtu.be/";
    var url := head + id;
    HeadThenId(head, id, 8, 17);
    assert forall m :: 0 <= m < 8 ==> url[m] == head[m] != 'y';
    NoMatchBeforeY(Prefixed, url, 8);
    assert OccursAt(url, SHORT_PREFIX, 8);
    PrefixesExclusive(url, 8);
    assert IdAt(url, 17) == Some(id);
    PrefixedWins(url, 8);
  }

  /** `https://www.youtube.com/embed/<id>` gives `<id>`. */
  lemma EmbedUrl(id: string)
    requires IsVideoId(id)
    ensures ExtractVideoId("https://www.youtube.com/embed/" + id) == Some(id)
  {
    var head := "https://www.youtube.com/embed/";
    var url := head + id;
    HeadThenId(head, id, 12, 30);
    assert forall m :: 0 <= m < 12 ==> url[m] == head[m] != 'y';
    NoMatchBeforeY(Prefixed, url, 12);
    assert OccursAt(url, EMBED_PREFIX, 12);
    PrefixesExclusive(url, 12);
    assert IdAt(url, 30) == Some(id);
    PrefixedWins(url, 12);
  }

  /** What a match of pattern 1 at `m` needs: a 'y' at `m` and a '.' five or seven places on. */
  lemma PrefixedShape(url: string, m: nat)
    requires MatchAt(Prefixed, url, m).Some?
    ensures m < |url| && url[m] == 'y'
    ensures (m + 5 < |url| && url[m + 5] == '.') || (m + 7 < |url| && url[m + 7] == '.')
  {
    MatchStartsWithY(Prefixed, url, m);
    if AfterLiteral(url, WATCH_PREFIX, m).Some? {
      assert url[m..m + |WATCH_PREFIX|][7] == url[m + 7];
    } else if AfterLiteral(url, SHORT_PREFIX, m).Some? {
      assert url[m..m + |SHORT_PREFIX|][5] == url[m + 5];
    } else {
      assert url[m..m + |EMBED_PREFIX|][7] == url[m + 7];
    }
  }

  /** A match of a literal at `m` begins with the literal's first character. */
  lemma LiteralStart(url: string, lit: string, m: nat)
    requires |lit| > 0 && AfterLiteral(url, lit, m).Some?
    ensures m < |url| && url[m] == lit[0]
  {
    assert url[m..m + |lit|][0] == url[m];
  }

  /** The nearest `&v=` with an identifier after it, reached through a newline-free gap, is the one taken. */
  lemma LazyParamIsNearest(url: string, j: nat, k: nat)
    requires j <= k <= |url| && GapFree(url, j, k) && AfterLiteral(url, V_PARAM, k).Some?
    requires forall m :: j <= m < k ==> AfterLiteral(url, V_PARAM, m).None?
    ensures LazyParam(url, j) == AfterLiteral(url, V_PARAM, k)
  {
  }

  const AMPERSAND_HEAD := "https://www." + WATCH_QUERY + "feature=x" + V_PARAM

  lemma AmpersandHeadChars()
    ensures forall m :: 0 <= m < |AMPERSAND_HEAD| && m != 12 ==> AMPERSAND_HEAD[m] != 'y'
    ensures AMPERSAND_HEAD[17] == 'b' && AMPERSAND_HEAD[24] == 'w' && AMPERSAND_HEAD[30] == 'f'
  {
  }

  lemma OccursAtChar(s: string, pat: string, i: nat, k: nat)
    requires OccursAt(s, pat, i) && k < |pat|
    ensures s[i + k] == pat[k]
  {
    assert s[i..i + |pat|][k] == s[i + k];
  }

  /** Pattern 1 matches nowhere in `AMPERSAND_HEAD + id`. */
  lemma AmpersandUrlHasNoPrefix(id: string)
    requires IsVideoId(id)
    ensures forall m :: 0 <= m <= |AMPERSAND_HEAD + id| ==> MatchAt(Prefixed, AMPERSAND_HEAD + id, m).None?
  {
    var head := AMPERSAND_HEAD;
    var url := head + id;
    AmpersandHeadChars();
    assert url[17] == 'b' && url[24] == 'w' && url[30] == 'f';
    if OccursAt(url, WATCH_PREFIX, 12) {
      OccursAtChar(url, WATCH_PREFIX, 12, 18);
    }
    if OccursAt(url, SHORT_PREFIX, 12) {
      OccursAtChar(url, SHORT_PREFIX, 12, 5);
    }
    if OccursAt(url, EMBED_PREFIX, 12) {
      OccursAtChar(url, EMBED_PREFIX, 12, 12);
    }
    forall m | 0 <= m <= |url| && m != 12 ensures MatchAt(Prefixed, url, m).None? {
      if MatchAt(Prefixed, url, m).Some? {
        PrefixedShape(url, m);
      }
    }
  }

  lemma AmpersandGapChars()
    ensures forall m :: 30 <= m < 39 ==> AMPERSAND_HEAD[m] != '&' && AMPERSAND_HEAD[m] != '\n'
    ensures AMPERSAND_HEAD[12..30] == WATCH_QUERY && AMPERSAND_HEAD[39..42] == V_PARAM
  {
    var head := AMPERSAND_HEAD;
    assert head[12..30] == WATCH_QUERY by {
      assert head == "https://www." + WATCH_QUERY + ("feature=x" + V_PARAM);
    }
    assert head[39..42] == V_PARAM;
  }

  /** Pattern 2 matches at index 12 of `AMPERSAND_HEAD + id`, capturing `id`. */
  lemma AmpersandUrlParam(id: string)
    requires IsVideoId(id)
    ensures MatchAt(AmpersandV, AMPERSAND_HEAD + id, 12) == Some(id)
  {
    var url := AMPERSAND_HEAD + id;
    AmpersandGapChars();
    HeadThenId(AMPERSAND_HEAD, id, 12, 30);
    HeadThenId(AMPERSAND_HEAD, id, 39, 42);
    forall m | 30 <= m < 39 ensures url[m] != '\n' && AfterLiteral(url, V_PARAM, m).None? {
      assert url[m] == AMPERSAND_HEAD[m];
      if AfterLiteral(url, V_PARAM, m).Some? {
        LiteralStart(url, V_PARAM, m);
      }
    }
    assert IdAt(url, 42) == Some(id);
    LazyParamIsNearest(url, 30, 39);
  }

  /**
   * `https://www.youtube.com/watch?feature=x&v=<id>` (`AMPERSAND_HEAD + id`)
   * gives `<id>`: pattern 1
   * matches nowhere, and pattern 2 finds the `&v=` parameter.
   */
  lemma AmpersandUrl(id: string)
    requires IsVideoId(id)
    ensures ExtractVideoId(AMPERSAND_HEAD + id) == Some(id)
  {
    var url := AMPERSAND_HEAD + id;
    HeadThenId(AMPERSAND_HEAD, id, 0, 12);
    assert forall m :: 0 <= m < 12 ==> url[m] == AMPERSAND_HEAD[m] != 'y';
    NoMatchBeforeY(AmpersandV, url, 12);
    AmpersandUrlHasNoPrefix(id);
    AmpersandUrlParam(id);
    AmpersandFallback(url, 12);
  }
}
