/**
 * `extract_video_id` of the translate pipeline (the current and the older
 * Streamlit file carry the same code): three regular expressions tried in
 * order with `re.search`, the first that matches anywhere deciding, its group
 * being the 11-character video identifier.
 */
module VideoId {
  import opened Wrappers

  /** The identifier length, `{11}` in every pattern. */
  const IdLength := 11

  /** The character class `[0-9A-Za-z_-]`. */
  predicate IsIdChar(c: char)
  {
    ('0' <= c <= '9') || ('A' <= c <= 'Z') || ('a' <= c <= 'z') || c == '_' || c == '-'
  }

  /** Eleven identifier characters start at position `i` of `s`. */
  predicate TokenAt(s: string, i: int)
  {
    0 <= i && i + IdLength <= |s| && forall k :: i <= k < i + IdLength ==> IsIdChar(s[k])
  }

  /** A possible result: exactly eleven identifier characters. */
  predicate IsVideoId(id: string)
  {
    |id| == IdLength && TokenAt(id, 0)
  }

  /** The eleven characters from position `g` on. */
  function IdAt(s: string, g: nat): string
    requires g + IdLength <= |s|
  {
    s[g..g + IdLength]
  }

  /** The three patterns, in the order they are tried. */
  datatype Pattern =
    | SlashOrV   // (?:v=|\/)([0-9A-Za-z_-]{11}).*
    | Embed      // (?:embed\/)([0-9A-Za-z_-]{11})
    | Bare       // ^([0-9A-Za-z_-]{11})$

  const Patterns: seq<Pattern> := [SlashOrV, Embed, Bare]

  /** Where group 1 starts when `pat` matches with the match beginning at `p`,
      None when it does not match there. The trailing `.*` of the first pattern
      also matches the empty string, so it never decides; `^` holds only at 0,
      and `$` at the end or before a final newline. */
  function MatchAt(pat: Pattern, s: string, p: nat): (g: Option<nat>)
    ensures g.Some? ==> p <= g.value && TokenAt(s, g.value)
  {
    match pat
    case SlashOrV =>
      if p + 2 <= |s| && s[p..p + 2] == "v=" && TokenAt(s, p + 2) then Some(p + 2)
      else if p < |s| && s[p] == '/' && TokenAt(s, p + 1) then Some(p + 1)
      else None
    case Embed =>
      if p + 6 <= |s| && s[p..p + 6] == "embed/" && TokenAt(s, p + 6) then Some(p + 6)
      else None
    case Bare =>
      if p == 0 && (|s| == IdLength || (|s| == IdLength + 1 && s[IdLength] == '\n'))
         && TokenAt(s, 0)
      then Some(0)
      else None
  }

  /** The scan of `re.search` from position `from`: the left-most position
      where `pat` matches, None when it matches nowhere. */
  function Search(pat: Pattern, s: string, from: nat): (m: Option<nat>)
    ensures m.Some? ==> from <= m.value <= |s| && MatchAt(pat, s, m.value).Some?
    ensures forall q :: from <= q <= |s| && (m.None? || q < m.value) ==> MatchAt(pat, s, q).None?
    decreases |s| - from
  {
    if from > |s| then None
    else if MatchAt(pat, s, from).Some? then Some(from)
    else Search(pat, s, from + 1)
  }

  /** `re.search(pat, s).group(1)`, or None when the search fails. */
  function Group(pat: Pattern, s: string): (r: Option<string>)
    ensures r.Some? ==> IsVideoId(r.value)
    ensures r.Some? ==>
      exists p :: && 0 <= p <= |s| && MatchAt(pat, s, p).Some?
                  && r.value == IdAt(s, MatchAt(pat, s, p).value)
                  && forall q :: 0 <= q < p ==> MatchAt(pat, s, q).None?
    ensures r.None? <==> forall q :: 0 <= q <= |s| ==> MatchAt(pat, s, q).None?
  {
    match Search(pat, s, 0)
    case None => None
    case Some(p) =>
      var g := MatchAt(pat, s, p).value;
      Some(IdAt(s, g))
  }

  /** The result of trying `pats` in order: the group of the first one that
      matches, None when none does. */
  function FirstMatch(s: string, pats: seq<Pattern>): (r: Option<string>)
    ensures r.Some? ==> IsVideoId(r.value)
    ensures r.Some? ==> exists g :: 0 <= g <= |s| - IdLength && r.value == IdAt(s, g)
    ensures r.None? <==> forall k :: 0 <= k < |pats| ==> Group(pats[k], s).None?
    decreases |pats|
  {
    if pats == [] then None
    else if Group(pats[0], s).Some? then Group(pats[0], s)
    else FirstMatch(s, pats[1..])
  }

  /** The first pattern that matches decides: its group is the result. */
  lemma {:induction false} FirstMatchDecides(s: string, pats: seq<Pattern>, k: nat)
    requires k < |pats| && Group(pats[k], s).Some?
    requires forall j :: 0 <= j < k ==> Group(pats[j], s).None?
    ensures FirstMatch(s, pats) == Group(pats[k], s)
    decreases k
  {
    if k > 0 {
      assert Group(pats[0], s).None?;
      assert pats[1..][k - 1] == pats[k];
      assert forall j :: 0 <= j < k - 1 ==> pats[1..][j] == pats[j + 1];
      FirstMatchDecides(s, pats[1..], k - 1);
    }
  }

  /** `extract_video_id(url)`: the loop over the patterns with early return. */
  method ExtractVideoId(url: string) returns (id: Option<string>)
    ensures id == FirstMatch(url, Patterns)
    ensures id.Some? ==> IsVideoId(id.value) && |url| >= IdLength
  {
    var patterns := Patterns;
    for k := 0 to |patterns|
      invariant FirstMatch(url, patterns) == FirstMatch(url, patterns[k..])
    {
      var m := Group(patterns[k], url);
      if m.Some? {
        return m;
      }
    }
    return None;
  }

  /** Every match of the `embed/` pattern is a match of the first pattern
      five characters further on, through the `/` of `embed/`, with the same group. */
  lemma EmbedMatchIsSlashMatch(s: string, p: nat)
    requires MatchAt(Embed, s, p).Some?
    ensures MatchAt(SlashOrV, s, p + 5) == MatchAt(Embed, s, p)
  {
    assert s[p + 5] == s[p..p + 6][5] == '/';
  }

  /** So the `embed/` pattern never decides the result: dropping it changes nothing. */
  lemma EmbedNeverDecides(s: string)
    ensures FirstMatch(s, Patterns) == FirstMatch(s, [SlashOrV, Bare])
  {
    assert Patterns[1..] == [Embed, Bare];
    assert Patterns[2..] == [SlashOrV, Bare][1..] == [Bare];
    var e := Search(Embed, s, 0);
    if e.Some? {
      EmbedMatchIsSlashMatch(s, e.value);
      assert MatchAt(SlashOrV, s, e.value + 5).Some?;
      assert Group(SlashOrV, s).Some?;
    }
  }

  /** A bare identifier, alone or followed by one newline, is returned as it
      stands: the first pattern needs a `v=` or `/` before eleven identifier
      characters, and neither fits. */
  lemma BareIdReturned(id: string, s: string)
    requires IsVideoId(id)
    requires s == id || s == id + "\n"
    ensures FirstMatch(s, Patterns) == Some(id)
  {
    assert Patterns[1..] == [Embed, Bare];
    assert Patterns[2..] == [Bare];
    assert s[..IdLength] == id;
    forall q | 0 <= q <= |s|
      ensures MatchAt(SlashOrV, s, q).None? && MatchAt(Embed, s, q).None?
    {
      if q == 0 && |s| == IdLength + 1 {
        assert !IsIdChar(s[IdLength]);
      }
    }
    assert Group(SlashOrV, s).None?;
    assert Group(Embed, s).None?;
    assert MatchAt(Bare, s, 0) == Some(0);
  }

  /** Input shorter than an identifier never yields one. */
  lemma ShortInputNoId(s: string)
    requires |s| < IdLength
    ensures FirstMatch(s, Patterns) == None
  {
  }

  /** A watch-page URL yields the identifier after `v=`: every earlier `/` is
      followed by a non-identifier character within eleven places. */
  lemma WatchUrlYieldsId(id: string)
    requires IsVideoId(id)
    ensures FirstMatch("https://www.youtube.com/watch?v=" + id, Patterns) == Some(id)
  {
    var pre := "https://www.youtube.com/watch?v=";
    var s := pre + id;
    forall q | 0 <= q < 30 ensures MatchAt(SlashOrV, s, q).None? {
      // Both eleven-character windows after q cover one of the non-identifier
      // characters at 11 ('.'), 19 ('.'), 29 ('?') or 31 ('=').
      var bad := if q <= 9 then 11 else if q <= 17 then 19 else if q <= 27 then 29 else 31;
      assert !IsIdChar(s[bad]);
    }
    assert s[30..32] == "v=";
    assert s[32..] == id;
    assert MatchAt(SlashOrV, s, 30) == Some(32);
    assert IdAt(s, 32) == id;
  }

  /** A short link yields the identifier after `youtu.be/`. */
  lemma ShortLinkYieldsId(id: string)
    requires IsVideoId(id)
    ensures FirstMatch("https://youtu.be/" + id, Patterns) == Some(id)
  {
    var s := "https://youtu.be/" + id;
    forall q | 0 <= q < 16 ensures MatchAt(SlashOrV, s, q).None? {
      // the non-identifier characters at 7 ('/'), 13 ('.') and 16 ('/')
      var bad := if q <= 5 then 7 else if q <= 11 then 13 else 16;
      assert !IsIdChar(s[bad]);
    }
    assert s[17..] == id;
    assert MatchAt(SlashOrV, s, 16) == Some(17);
    assert IdAt(s, 17) == id;
  }

  /** An embed URL yields its identifier too, but through the first pattern's
      `/` alternative rather than through the `embed/` pattern. */
  lemma EmbedUrlYieldsId(id: string)
    requires IsVideoId(id)
    ensures FirstMatch("https://www.youtube.com/embed/" + id, Patterns) == Some(id)
    ensures Group(SlashOrV, "https://www.youtube.com/embed/" + id) == Some(id)
  {
    var s := "https://www.youtube.com/embed/" + id;
    forall q | 0 <= q < 29 ensures MatchAt(SlashOrV, s, q).None? {
      // the non-identifier characters at 7 ('/'), 11 ('.'), 19 ('.') and 29 ('/')
      var bad := if q <= 5 then 7 else if q <= 9 then 11 else if q <= 17 then 19 else 29;
      assert !IsIdChar(s[bad]);
      if q == 28 {
        assert s[28] == 'd';
      }
    }
    assert s[30..] == id;
    assert MatchAt(SlashOrV, s, 29) == Some(30);
    assert IdAt(s, 30) == id;
  }
}
