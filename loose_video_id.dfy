/**
 * `extract_video_id` of the LangChain Streamlit script (its copy under
 * `archive/` is identical): strip the input, search once for `v=` or
 * `youtu.be/` before eleven identifier characters, and otherwise accept any
 * stripped input of length eleven as it stands.
 */
module LooseVideoId {
  import opened Wrappers
  import opened PyText
  import VideoId

  /** Where group 1 starts when `(?:v=|youtu\.be/)([a-zA-Z0-9_-]{11})` matches
      with the match beginning at `p`. */
  function MatchAt(s: string, p: nat): (g: Option<nat>)
    ensures g.Some? ==> p < g.value && VideoId.TokenAt(s, g.value)
  {
    if QueryAt(s, p) then Some(p + 2)
    else if ShortLinkAt(s, p) then Some(p + 9)
    else None
  }

  /** `v=` and an identifier start at `p`. */
  predicate QueryAt(s: string, p: nat)
  {
    p + 2 <= |s| && s[p..p + 2] == "v=" && VideoId.TokenAt(s, p + 2)
  }

  /** `youtu.be/` and an identifier start at `p`. */
  predicate ShortLinkAt(s: string, p: nat)
  {
    p + 9 <= |s| && s[p..p + 9] == "youtu.be/" && VideoId.TokenAt(s, p + 9)
  }

  /** The left-most match position at or after `from`. */
  function Search(s: string, from: nat): (m: Option<nat>)
    ensures m.Some? ==> from <= m.value <= |s| && MatchAt(s, m.value).Some?
    ensures forall q :: from <= q <= |s| && (m.None? || q < m.value) ==> MatchAt(s, q).None?
    decreases |s| - from
  {
    if from > |s| then None
    else if MatchAt(s, from).Some? then Some(from)
    else Search(s, from + 1)
  }

  /** `extract_video_id(url)`. */
  function ExtractVideoId(url: string): (r: Option<string>)
    ensures var s := Strip(url);
      && (Search(s, 0).Some? ==>
            var g := MatchAt(s, Search(s, 0).value).value;
            r == Some(s[g..g + VideoId.IdLength]) && VideoId.IsVideoId(r.value))
      && (Search(s, 0).None? ==> r == if |s| == VideoId.IdLength then Some(s) else None)
    ensures r.Some? ==> |r.value| == VideoId.IdLength
  {
    var s := Strip(url);
    match Search(s, 0)
    case Some(p) =>
      var g := MatchAt(s, p).value;
      Some(s[g..g + VideoId.IdLength])
    case None =>
      if |s| == VideoId.IdLength then Some(s) else None
  }

  /** Whitespace around the input never changes the result. */
  lemma SurroundingSpaceIgnored(a: string, url: string, b: string)
    requires AllSpace(a) && AllSpace(b)
    ensures ExtractVideoId(a + url + b) == ExtractVideoId(url)
  {
    StripPadded(a, url, b);
  }

  /** The identifier after the left-most `v=` or `youtu.be/` is returned. */
  lemma LeftmostUrlMatch(url: string, p: nat)
    requires MatchAt(Strip(url), p).Some?
    requires forall q :: 0 <= q < p ==> MatchAt(Strip(url), q).None?
    ensures ExtractVideoId(url) ==
      var g := MatchAt(Strip(url), p).value; Some(Strip(url)[g..g + VideoId.IdLength])
  {
  }

  /** A string with no `=` and no `youtu.be/` before eleven identifier
      characters has no URL match. */
  lemma NoUrlMatch(s: string)
    requires forall i :: 0 <= i < |s| ==> s[i] != '='
    requires forall q: nat :: !ShortLinkAt(s, q)
    ensures Search(s, 0).None?
  {
    forall q | 0 <= q <= |s| ensures MatchAt(s, q).None? {
      if q + 2 <= |s| {
        assert s[q..q + 2][1] == s[q + 1];
      }
    }
  }

  /** Any stripped eleven characters are accepted as they are, identifier
      characters or not: eleven characters are too few for a URL match, so
      "hello world" and "hello=world" are returned unchanged. */
  lemma AnyElevenCharactersAccepted(s: string)
    requires |s| == VideoId.IdLength && !IsSpace(s[0]) && !IsSpace(s[|s| - 1])
    ensures ExtractVideoId(s) == Some(s)
  {
    StripUnpadded(s);
    // A match needs two or nine characters before the eleven of the group.
    forall q | 0 <= q <= |s| ensures MatchAt(s, q).None? {
    }
  }

  /** A stripped input shorter than an identifier gives None. */
  lemma ShortInputNoId(url: string)
    requires |Strip(url)| < VideoId.IdLength
    ensures ExtractVideoId(url) == None
  {
  }

  /** `embed/` is not recognised here, unlike in the three-pattern extractor
      (see `VideoId.EmbedUrlYieldsId`). */
  lemma EmbedUrlNotRecognised(id: string)
    requires VideoId.IsVideoId(id)
    ensures ExtractVideoId("https://www.youtube.com/embed/" + id) == None
  {
    var s := "https://www.youtube.com/embed/" + id;
    assert s[|s| - 1] == id[10] && s[0] == 'h';
    StripUnpadded(s);
    NoEquals("https://www.youtube.com/embed/", id);
    // Every window of eleven characters after a "youtu.be/" would cover the
    // '.' at 19 or the '/' at 29, except after position 21, which holds 'o'.
    assert !VideoId.IsIdChar(s[19]) && !VideoId.IsIdChar(s[29]) && s[21] == 'o';
    NoUrlMatch(s);
  }

  /** Nor is a bare `/` before the identifier. */
  lemma SlashUrlNotRecognised(id: string)
    requires VideoId.IsVideoId(id)
    ensures ExtractVideoId("https://example.com/" + id) == None
  {
    var s := "https://example.com/" + id;
    assert s[|s| - 1] == id[10] && s[0] == 'h';
    StripUnpadded(s);
    NoEquals("https://example.com/", id);
    // Every window after a "youtu.be/" would cover the '/' at 19, except
    // after position 11, which holds 'm'.
    assert !VideoId.IsIdChar(s[19]) && s[11] == 'm';
    NoUrlMatch(s);
  }

  lemma NoEquals(pre: string, id: string)
    requires '=' !in pre && VideoId.IsVideoId(id)
    ensures forall i :: 0 <= i < |pre + id| ==> (pre + id)[i] != '='
  {
    forall i | 0 <= i < |pre + id| ensures (pre + id)[i] != '=' {
      if i < |pre| {
        assert (pre + id)[i] in pre;
      } else {
        assert (pre + id)[i] == id[i - |pre|];
      }
    }
  }
}
