/**
 * The Python `str` operations the script relies on, over `seq<char>`:
 * `split`, `replace(pat, "")` and `strip()`; `Find` and `Join` are helpers
 * that define and characterise them.
 */
module Strings {
  import opened Wrappers

  /** `pat` occurs in `s` starting at index `i`. */
  predicate OccursAt(s: string, pat: string, i: int)
  {
    0 <= i && i + |pat| <= |s| && s[i..i + |pat|] == pat
  }

  /** Python's `pat in s`. */
  predicate Contains(s: string, pat: string)
  {
    exists i :: 0 <= i <= |s| && OccursAt(s, pat, i)
  }

  /** `pat` occurs in `s` at exactly one index. */
  predicate OccursOnce(s: string, pat: string)
  {
    exists i :: 0 <= i <= |s| && OccursAt(s, pat, i) && forall j :: 0 <= j <= |s| && OccursAt(s, pat, j) ==> j == i
  }

  /**
   * No occurrence of `pat` can start strictly inside another one: the first
   * character of `pat` does not appear again in it. ("SUMMARY:" and "NOTES:"
   * both have this shape.)
   */
  predicate HeadUnique(pat: string)
  {
    |pat| > 0 && forall k :: 0 < k < |pat| ==> pat[k] != pat[0]
  }

  /** Python's `s.find(pat, start)`: the leftmost occurrence at or after `start`. */
  function Find(s: string, pat: string, start: nat): (r: Option<nat>)
    decreases |s| - start
    ensures r.Some? ==> start <= r.value && OccursAt(s, pat, r.value)
    ensures r.Some? ==> forall j :: start <= j < r.value ==> !OccursAt(s, pat, j)
    ensures r.None? ==> forall j :: start <= j ==> !OccursAt(s, pat, j)
  {
    if start + |pat| > |s| then None
    else if s[start..start + |pat|] == pat then Some(start)
    else Find(s, pat, start + 1)
  }

  lemma FindNoneIffAbsent(s: string, pat: string)
    ensures Find(s, pat, 0).None? <==> !Contains(s, pat)
  {
    if Find(s, pat, 0).Some? {
      assert OccursAt(s, pat, Find(s, pat, 0).value);
    }
  }

  /** An occurrence inside a slice is an occurrence in the whole string, shifted. */
  lemma OccursInSlice(s: string, pat: string, lo: nat, hi: nat, j: int)
    requires lo <= hi <= |s|
    ensures OccursAt(s[lo..hi], pat, j) ==> OccursAt(s, pat, lo + j)
  {
    if OccursAt(s[lo..hi], pat, j) {
        var inner, outer := s[lo..hi][j..j + |pat|], s[lo + j..lo + j + |pat|];
      forall k | 0 <= k < |pat| ensures inner[k] == outer[k] { }
      assert inner == outer;
    }
  }

  /** An occurrence in the whole string that lies inside a slice is one of the slice. */
  lemma OccursFromWhole(s: string, pat: string, lo: nat, hi: nat, j: int)
    requires lo <= j && j + |pat| <= hi <= |s|
    ensures OccursAt(s, pat, j) ==> OccursAt(s[lo..hi], pat, j - lo)
    ensures hi == |s| ==> s[lo..hi] == s[lo..]
  {
    var inner, outer := s[lo..hi][j - lo..j - lo + |pat|], s[j..j + |pat|];
    forall k | 0 <= k < |pat| ensures inner[k] == outer[k] { }
    assert inner == outer;
  }

  /** Python's `sep.join(parts)`. */
  function Join(parts: seq<string>, sep: string): string
  {
    if |parts| == 0 then ""
    else if |parts| == 1 then parts[0]
    else parts[0] + sep + Join(parts[1..], sep)
  }

  /**
   * Python's `s.split(sep)` for a non-empty separator: cut at every
   * occurrence, scanning left to right, never overlapping.
   */
  function Split(s: string, sep: string): (parts: seq<string>)
    requires |sep| > 0
    decreases |s|
    ensures |parts| >= 1
  {
    match Find(s, sep, 0)
    case None => [s]
    case Some(i) => [s[..i]] + Split(s[i + |sep|..], sep)
  }

  /** Joining the pieces of a split with the separator gives back the string. */
  lemma {:induction false} SplitJoinRoundTrip(s: string, sep: string)
    requires |sep| > 0
    decreases |s|
    ensures Join(Split(s, sep), sep) == s
  {
    var f := Find(s, sep, 0);
    if f.Some? {
      var i := f.value;
      var rest := s[i + |sep|..];
      SplitJoinRoundTrip(rest, sep);
      JoinCons(s[..i], Split(rest, sep), sep);
      CutAround(s, sep, i);
    }
  }

  /** A string is what comes before an occurrence, the occurrence, and what follows. */
  lemma CutAround(s: string, pat: string, i: nat)
    requires OccursAt(s, pat, i)
    ensures s == s[..i] + pat + s[i + |pat|..]
  {
    assert s == s[..i] + s[i..i + |pat|] + s[i + |pat|..];
  }

  lemma JoinCons(head: string, parts: seq<string>, sep: string)
    requires |parts| >= 1
    ensures Join([head] + parts, sep) == head + sep + Join(parts, sep)
  {
    assert ([head] + parts)[1..] == parts;
  }

  /** No piece of a split holds the separator. */
  lemma {:induction false} SplitPiecesFree(s: string, sep: string)
    requires |sep| > 0
    decreases |s|
    ensures forall k :: 0 <= k < |Split(s, sep)| ==> !Contains(Split(s, sep)[k], sep)
  {
    match Find(s, sep, 0)
    case None =>
    case Some(i) =>
      var rest := s[i + |sep|..];
      SplitPiecesFree(rest, sep);
      assert Split(s, sep) == [s[..i]] + Split(rest, sep);
      assert !Contains(s[..i], sep) by {
        forall j | 0 <= j <= i ensures !OccursAt(s[..i], sep, j) {
          OccursInSlice(s, sep, 0, i, j);
        }
      }
  }

  /** Two occurrences of a head-unique pattern are equal or do not overlap. */
  lemma NoOverlap(s: string, pat: string, i: int, j: int)
    requires HeadUnique(pat)
    requires OccursAt(s, pat, i) && OccursAt(s, pat, j) && i < j
    ensures i + |pat| <= j
  {
    assert s[j] == pat[0] by { assert s[j..j + |pat|][0] == s[j]; }
    assert j < i + |pat| ==> pat[j - i] == s[j] by {
      if j < i + |pat| { assert s[i..i + |pat|][j - i] == s[j]; }
    }
  }

  /**
   * `s.split(sep)` has exactly two parts exactly when `sep` occurs in `s` at
   * one index only.
   */
  lemma {:induction false} SplitTwoIffOnce(s: string, sep: string)
    requires HeadUnique(sep)
    ensures |Split(s, sep)| == 2 <==> OccursOnce(s, sep)
  {
    var f := Find(s, sep, 0);
    if f.None? {
      FindNoneIffAbsent(s, sep);
    } else {
      var rest := s[f.value + |sep|..];
      if Find(rest, sep, 0).None? {
        assert |Split(s, sep)| == 2;
        OnlyOccurrence(s, sep, f.value);
      } else {
        assert |Split(s, sep)| > 2;
        SecondOccurrence(s, sep, f.value, Find(rest, sep, 0).value);
      }
    }
  }

  lemma OnlyOccurrence(s: string, sep: string, i: nat)
    requires HeadUnique(sep)
    requires Find(s, sep, 0) == Some(i)
    requires Find(s[i + |sep|..], sep, 0).None?
    ensures OccursOnce(s, sep)
  {
    forall j | 0 <= j <= |s| && OccursAt(s, sep, j) ensures j == i {
      if j > i {
        NoOverlap(s, sep, i, j);
        OccursFromWhole(s, sep, i + |sep|, |s|, j);
      }
    }
    assert 0 <= i <= |s| && OccursAt(s, sep, i);
  }

  lemma SecondOccurrence(s: string, sep: string, i: nat, m: nat)
    requires |sep| > 0
    requires Find(s, sep, 0) == Some(i)
    requires Find(s[i + |sep|..], sep, 0) == Some(m)
    ensures !OccursOnce(s, sep)
  {
    assert s[i + |sep|..] == s[i + |sep|..|s|];
    OccursInSlice(s, sep, i + |sep|, |s|, m);
    assert OccursAt(s, sep, i) && OccursAt(s, sep, i + |sep| + m);
  }

  /**
   * The partner of `Split` on one separator: cutting `a + sep + b`, where
   * neither `a` nor `b` holds `sep`, gives back `[a, b]`.
   */
  lemma {:induction false} SplitOfJoinedPair(a: string, sep: string, b: string)
    requires HeadUnique(sep)
    requires !Contains(a, sep) && !Contains(b, sep)
    ensures Split(a + sep + b, sep) == [a, b]
  {
    var s := a + sep + b;
    var n := |sep|;
    assert OccursAt(s, sep, |a|) by {
      assert s[|a|..|a| + n] == sep;
    }
    assert s[..|a|] == a;
    forall j | 0 <= j < |a| && OccursAt(s, sep, j) ensures false {
      if j + n <= |a| {
        OccursFromWhole(s, sep, 0, |a|, j);
      } else {
        NoOverlap(s, sep, j, |a|);
      }
    }
    assert Find(s, sep, 0) == Some(|a|);
    assert s[|a| + n..] == b;
    FindNoneIffAbsent(b, sep);
  }

  /** Python's `s.replace(pat, "")`: every occurrence removed, in one left-to-right pass. */
  function RemoveAll(s: string, pat: string): (r: string)
    requires |pat| > 0
    decreases |s|
    ensures |r| <= |s|
  {
    match Find(s, pat, 0)
    case None => s
    case Some(i) => s[..i] + RemoveAll(s[i + |pat|..], pat)
  }

  /** The same pass, stated the other way Python allows: `"".join(s.split(pat))`. */
  lemma {:induction false} RemoveAllIsJoinOfSplit(s: string, pat: string)
    requires |pat| > 0
    decreases |s|
    ensures RemoveAll(s, pat) == Join(Split(s, pat), "")
  {
    var f := Find(s, pat, 0);
    if f.Some? {
      var head, rest := s[..f.value], s[f.value + |pat|..];
      assert RemoveAll(s, pat) == head + RemoveAll(rest, pat);
      assert Split(s, pat) == [head] + Split(rest, pat);
      RemoveAllIsJoinOfSplit(rest, pat);
      JoinCons(head, Split(rest, pat), "");
      assert head + "" == head;
    } else {
      assert Split(s, pat) == [s];
    }
  }

  /** The removal leaves `s` untouched exactly when `pat` does not occur in it. */
  lemma RemoveAllUnchangedIffAbsent(s: string, pat: string)
    requires |pat| > 0
    ensures RemoveAll(s, pat) == s <==> !Contains(s, pat)
  {
    FindNoneIffAbsent(s, pat);
    match Find(s, pat, 0)
    case None =>
    case Some(i) =>
      assert |RemoveAll(s, pat)| <= i + |s| - i - |pat| < |s|;
  }

  // ---------------------------------------------------------------------------
  // strip()

  /**
   * Python's `str.isspace()` for one character: the code points
   * U+0009..U+000D, U+001C..U+0020, U+0085, U+00A0, U+1680, U+2000..U+200A,
   * U+2028, U+2029, U+202F, U+205F and U+3000.
   */
  predicate IsSpace(c: char)
  {
    var n := c as int;
    (0x09 <= n <= 0x0D) || (0x1C <= n <= 0x20) || n == 0x85 || n == 0xA0 || n == 0x1680
    || (0x2000 <= n <= 0x200A) || n == 0x2028 || n == 0x2029 || n == 0x202F || n == 0x205F
    || n == 0x3000
  }

  predicate AllSpace(s: string)
  {
    forall k :: 0 <= k < |s| ==> IsSpace(s[k])
  }

  /** Neither begins nor ends with whitespace. */
  predicate IsStripped(s: string)
  {
    |s| > 0 ==> !IsSpace(s[0]) && !IsSpace(s[|s| - 1])
  }

  /** Python's `s.lstrip()`. */
  function StripLeft(s: string): (r: string)
    decreases |s|
    ensures |r| <= |s| && r == s[|s| - |r|..]
    ensures AllSpace(s[..|s| - |r|])
    ensures |r| > 0 ==> !IsSpace(r[0])
  {
    if |s| > 0 && IsSpace(s[0]) then StripLeft(s[1..]) else s
  }

  /** Python's `s.rstrip()`. */
  function StripRight(s: string): (r: string)
    decreases |s|
    ensures |r| <= |s| && r == s[..|r|]
    ensures AllSpace(s[|r|..])
    ensures |r| > 0 ==> !IsSpace(r[|r| - 1])
  {
    if |s| > 0 && IsSpace(s[|s| - 1]) then StripRight(s[..|s| - 1]) else s
  }

  /** Python's `s.strip()`: `s` is what it returns, framed by whitespace on both sides. */
  function Strip(s: string): (r: string)
    ensures IsStripped(r)
    ensures exists i, j :: 0 <= i <= j <= |s| && r == s[i..j] && AllSpace(s[..i]) && AllSpace(s[j..])
  {
    var l := StripLeft(s);
    var r := StripRight(l);
    SliceOfSuffix(s, |s| - |l|, |r|);
    r
  }

  lemma SliceOfSuffix(s: string, i: nat, n: nat)
    requires i + n <= |s|
    ensures s[i..][..n] == s[i..i + n] && s[i..][n..] == s[i + n..]
  {
  }

  /**
   * The partner of `Strip`: whenever `s` is a stripped middle framed by
   * whitespace, `Strip(s)` is that middle.
   */
  lemma {:induction false} StripUnique(lead: string, mid: string, trail: string)
    requires AllSpace(lead) && AllSpace(trail) && IsStripped(mid)
    ensures Strip(lead + mid + trail) == mid
  {
    if mid == [] {
      assert lead + mid + trail == lead + trail;
      StripLeftOfSpaces(lead + trail);
    } else {
      assert lead + mid + trail == lead + (mid + trail);
      assert (mid + trail)[0] == mid[0];
      StripLeftOfFramed(lead, mid + trail);
      StripRightOfFramed(mid, trail);
      assert Strip(lead + mid + trail) == StripRight(StripLeft(lead + mid + trail));
    }
  }

  lemma StripLeftOfSpaces(s: string)
    requires AllSpace(s)
    ensures StripLeft(s) == []
  {
  }

  lemma {:induction false} StripLeftOfFramed(lead: string, rest: string)
    requires AllSpace(lead)
    requires |rest| > 0 ==> !IsSpace(rest[0])
    decreases |lead|
    ensures StripLeft(lead + rest) == rest
  {
    if |lead| > 0 {
      assert (lead + rest)[1..] == lead[1..] + rest;
      StripLeftOfFramed(lead[1..], rest);
    } else {
      assert lead + rest == rest;
    }
  }

  lemma {:induction false} StripRightOfFramed(rest: string, trail: string)
    requires AllSpace(trail)
    requires |rest| > 0 ==> !IsSpace(rest[|rest| - 1])
    decreases |trail|
    ensures StripRight(rest + trail) == rest
  {
    if |trail| > 0 {
      assert (rest + trail)[..|rest + trail| - 1] == rest + trail[..|trail| - 1];
      StripRightOfFramed(rest, trail[..|trail| - 1]);
    } else {
      assert rest + trail == rest;
    }
  }

  /** `strip()` only takes characters away: it cannot create an occurrence. */
  lemma StripKeepsAbsence(s: string, pat: string)
    requires !Contains(s, pat)
    ensures !Contains(Strip(s), pat)
  {
    var r := Strip(s);
    var i, j :| 0 <= i <= j <= |s| && r == s[i..j] && AllSpace(s[..i]) && AllSpace(s[j..]);
    forall k | 0 <= k <= |r| ensures !OccursAt(r, pat, k) {
      OccursInSlice(s, pat, i, j, k);
    }
  }

  /** A leading occurrence goes, and with nothing else to remove the rest stays as it is. */
  lemma RemoveAllOfLeading(pat: string, s: string)
    requires |pat| > 0 && !Contains(s, pat)
    ensures RemoveAll(pat + s, pat) == s
  {
    var t := pat + s;
    assert OccursAt(t, pat, 0) by { assert t[..|pat|] == pat; }
    assert Find(t, pat, 0) == Some(0);
    assert t[|pat|..] == s;
    RemoveAllUnchangedIffAbsent(s, pat);
  }
}
