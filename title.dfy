/**
 * The file-name-safe video title: the sanitiser
 * `re.sub(r'[<>:"/\\|?*]', '', t).strip()[:100]` and the two versions of
 * `get_video_title` around it. The network is not modelled: the oEmbed
 * answer and the groups the page scrape found are parameters.
 */
module Title {
  import opened Wrappers
  import opened PyText

  /** The character class `[<>:"/\\|?*]`. */
  predicate IsForbidden(c: char)
  {
    c == '<' || c == '>' || c == ':' || c == '"' || c == '/' || c == '\\'
    || c == '|' || c == '?' || c == '*'
  }

  predicate NoForbidden(s: string)
  {
    forall i :: 0 <= i < |s| ==> !IsForbidden(s[i])
  }

  /** The `[:100]` truncation. */
  const MaxTitleLength := 100

  /** `re.sub(r'[<>:"/\\|?*]', '', s)`. */
  function RemoveForbidden(s: string): (r: string)
    ensures NoForbidden(r) && |r| <= |s|
    decreases |s|
  {
    if s == [] then []
    else (if IsForbidden(s[0]) then [] else [s[0]]) + RemoveForbidden(s[1..])
  }

  /** Removal works character by character, so it distributes over concatenation. */
  lemma {:induction false} RemoveForbiddenAppend(a: string, b: string)
    ensures RemoveForbidden(a + b) == RemoveForbidden(a) + RemoveForbidden(b)
    decreases |a|
  {
    if a != [] {
      assert (a + b)[1..] == a[1..] + b;
      RemoveForbiddenAppend(a[1..], b);
    } else {
      assert a + b == b;
    }
  }

  /** A forbidden character is deleted, not replaced. */
  lemma RemoveForbiddenDeletes(c: char)
    requires IsForbidden(c)
    ensures RemoveForbidden([c]) == []
  {
    assert [c][1..] == [];
  }

  /** So a forbidden character anywhere in a string vanishes and its two
      sides are joined directly: `"a:b"` becomes `"ab"`. */
  lemma RemoveForbiddenJoinsSides(a: string, c: char, b: string)
    requires IsForbidden(c)
    ensures RemoveForbidden(a + [c] + b) == RemoveForbidden(a) + RemoveForbidden(b)
  {
    RemoveForbiddenAppend(a + [c], b);
    RemoveForbiddenAppend(a, [c]);
    RemoveForbiddenDeletes(c);
  }

  /** A string without forbidden characters is left as it is. */
  lemma {:induction false} RemoveForbiddenClean(s: string)
    requires NoForbidden(s)
    ensures RemoveForbidden(s) == s
    decreases |s|
  {
    if s != [] {
      RemoveForbiddenClean(s[1..]);
    }
  }

  /** The removal leaves only whitespace exactly when the input holds
      nothing but forbidden characters and whitespace. */
  lemma {:induction false} RemoveForbiddenAllSpace(s: string)
    ensures AllSpace(RemoveForbidden(s)) <==> forall i :: 0 <= i < |s| ==> IsForbidden(s[i]) || IsSpace(s[i])
    decreases |s|
  {
    if s != [] {
      RemoveForbiddenAllSpace(s[1..]);
      var r := RemoveForbidden(s);
      var head := if IsForbidden(s[0]) then [] else [s[0]];
      assert r == head + RemoveForbidden(s[1..]);
      if AllSpace(r) {
        assert AllSpace(RemoveForbidden(s[1..])) by {
          forall i | 0 <= i < |RemoveForbidden(s[1..])|
            ensures IsSpace(RemoveForbidden(s[1..])[i])
          {
            assert RemoveForbidden(s[1..])[i] == r[|head| + i];
          }
        }
        assert !IsForbidden(s[0]) ==> IsSpace(r[0]);
        forall i | 0 <= i < |s| ensures IsForbidden(s[i]) || IsSpace(s[i]) {
          if i > 0 {
            assert s[i] == s[1..][i - 1];
          }
        }
      }
    }
  }

  /** Stripping cannot bring in a forbidden character. */
  lemma StripKeepsClean(s: string)
    requires NoForbidden(s)
    ensures NoForbidden(Strip(s))
  {
    var lo, hi := StripSlice(s);
    var r := Strip(s);
    forall i | 0 <= i < |r|
      ensures !IsForbidden(r[i])
    {
      assert r[i] == s[lo + i];
    }
  }

  /** The sanitised title: no forbidden character, at most 100 characters,
      and no leading whitespace (truncation happens after the strip, so it may
      end in whitespace, and nothing replaces an empty result). */
  function Sanitize(title: string): (r: string)
    ensures NoForbidden(r)
    ensures |r| <= MaxTitleLength
    ensures r != [] ==> !IsSpace(r[0])
  {
    StripKeepsClean(RemoveForbidden(title));
    var cleaned := Strip(RemoveForbidden(title));
    if |cleaned| <= MaxTitleLength then cleaned else cleaned[..MaxTitleLength]
  }

  /** A title that is already clean, unpadded and short enough is kept. */
  lemma SanitizeKeepsCleanTitle(t: string)
    requires NoForbidden(t) && |t| <= MaxTitleLength
    requires t != [] ==> !IsSpace(t[0]) && !IsSpace(t[|t| - 1])
    ensures Sanitize(t) == t
  {
    RemoveForbiddenClean(t);
    StripUnpadded(t);
    SanitizeShort(t);
  }

  /** A title whose cleaned form is short enough is sanitised to that form. */
  lemma SanitizeShort(t: string)
    requires |Strip(RemoveForbidden(t))| <= MaxTitleLength
    ensures Sanitize(t) == Strip(RemoveForbidden(t))
  {
  }

  /** The result is empty exactly when the title has nothing but forbidden
      characters and whitespace. */
  lemma SanitizeEmptyIff(t: string)
    ensures Sanitize(t) == "" <==> forall i :: 0 <= i < |t| ==> IsForbidden(t[i]) || IsSpace(t[i])
  {
    var c := Strip(RemoveForbidden(t));
    assert Sanitize(t) == "" <==> c == "";
    RemoveForbiddenAllSpace(t);
    StripEmptyIff(RemoveForbidden(t));
  }

  /** Cutting at 100 characters after the strip can leave trailing
      whitespace, and sanitising again then removes it: the sanitiser is not
      idempotent. */
  lemma TruncationLeavesTrailingSpace(a: string, c: char)
    requires |a| == MaxTitleLength - 1 && NoForbidden(a)
    requires !IsSpace(a[0]) && !IsSpace(a[|a| - 1])
    requires !IsForbidden(c) && !IsSpace(c)
    ensures Sanitize(a + " " + [c]) == a + " "
    ensures IsSpace(Sanitize(a + " " + [c])[MaxTitleLength - 1])
    ensures Sanitize(Sanitize(a + " " + [c])) == a != Sanitize(a + " " + [c])
  {
    var t := a + " " + [c];
    assert NoForbidden(t) by {
      forall i | 0 <= i < |t|
        ensures !IsForbidden(t[i])
      {
        if i < |a| {
          assert t[i] == a[i];
        }
      }
    }
    assert t[0] == a[0] && t[|t| - 1] == c;
    SanitizeLong(t);
    assert t[..MaxTitleLength] == a + " ";
    SanitizeTrailingSpace(a);
  }

  /** A clean, unpadded title longer than 100 characters is cut to 100. */
  lemma SanitizeLong(t: string)
    requires NoForbidden(t) && |t| > MaxTitleLength
    requires !IsSpace(t[0]) && !IsSpace(t[|t| - 1])
    ensures Sanitize(t) == t[..MaxTitleLength]
  {
    RemoveForbiddenClean(t);
    StripUnpadded(t);
  }

  /** A clean, unpadded short title with one space appended sanitises to itself. */
  lemma SanitizeTrailingSpace(a: string)
    requires NoForbidden(a) && |a| < MaxTitleLength
    requires a != [] && !IsSpace(a[0]) && !IsSpace(a[|a| - 1])
    ensures Sanitize(a + " ") == a
  {
    assert NoForbidden(a + " ") by {
      forall i | 0 <= i < |a + " "|
        ensures !IsForbidden((a + " ")[i])
      {
        if i < |a| {
          assert (a + " ")[i] == a[i];
        }
      }
    }
    RemoveForbiddenClean(a + " ");
    assert (a + " ")[0] == a[0];
    assert TrimLeft(a + " ") == a + " ";
    AllSpaceSingle(' ');
    TrimRightPadded(a, " ");
    StripUnpadded(a);
  }

  /** The scraped title before sanitising: `.replace(' - YouTube', '').strip()`. */
  function ScrapedTitle(group: string): (r: string)
    ensures |r| <= |group|
    ensures r != [] ==> !IsSpace(r[0]) && !IsSpace(r[|r| - 1])
    ensures r == Strip(Join(Split(group, " - YouTube"), ""))
  {
    RemoveAllJoinsSplit(group, " - YouTube");
    Strip(RemoveAll(group, " - YouTube"))
  }

  /** The oEmbed answer decides: it came back with a non-empty `title`. */
  predicate OembedHit(oembed: Option<string>)
  {
    oembed.Some? && oembed.value != ""
  }

  /** `k` is the first page pattern that matched. */
  predicate FirstFoundAt(groups: seq<Option<string>>, k: int)
  {
    0 <= k < |groups| && groups[k].Some? && forall j :: 0 <= j < k ==> groups[j].None?
  }

  /** The loop over the page patterns of the current version: the first
      pattern that matched decides, and its title is returned sanitised. */
  method ScanPage(groups: seq<Option<string>>) returns (title: Option<string>)
    ensures forall k :: FirstFoundAt(groups, k) ==> title == Some(Sanitize(ScrapedTitle(groups[k].value)))
    ensures (forall k :: 0 <= k < |groups| ==> groups[k].None?) ==> title == None
  {
    var k := 0;
    while k < |groups|
      invariant 0 <= k <= |groups|
      invariant forall j :: 0 <= j < k ==> groups[j].None?
    {
      if groups[k].Some? {
        assert forall i :: FirstFoundAt(groups, i) ==> i == k;
        return Some(Sanitize(ScrapedTitle(groups[k].value)));
      }
      k := k + 1;
    }
    return None;
  }

  /** `get_video_title` of the current pipeline. `oembed` is the oEmbed
      `title` field (empty when absent), None when the request failed or did
      not answer 200; `scraped` holds group 1 of each page pattern in order, and
      is None when the page could not be fetched. */
  method GetVideoTitle(videoId: string, oembed: Option<string>, scraped: Option<seq<Option<string>>>)
    returns (title: string)
    ensures OembedHit(oembed) ==> title == Sanitize(oembed.value)
    ensures !OembedHit(oembed) && scraped.Some? ==>
      forall k :: FirstFoundAt(scraped.value, k) ==>
        title == Sanitize(ScrapedTitle(scraped.value[k].value))
    ensures !OembedHit(oembed) && (scraped.None? || forall k :: 0 <= k < |scraped.value| ==> scraped.value[k].None?) ==>
      title == "video_" + videoId
  {
    if OembedHit(oembed) {
      return Sanitize(oembed.value);
    }
    if scraped.Some? {
      var found := ScanPage(scraped.value);
      if found.Some? {
        return found.value;
      }
    }
    return "video_" + videoId;
  }

  /** A scraped group the older version accepts: it sanitises to something. */
  predicate UsableOld(g: Option<string>)
  {
    g.Some? && Sanitize(ScrapedTitle(g.value)) != ""
  }

  /** For each page pattern in order, whether the older version accepts its group. */
  function UsableFlags(groups: seq<Option<string>>): (r: seq<bool>)
    ensures |r| == |groups|
  {
    seq(|groups|, j requires 0 <= j < |groups| => UsableOld(groups[j]))
  }

  /** No flag before `k` is set. */
  predicate NoneBefore(flags: seq<bool>, k: nat)
    requires k <= |flags|
  {
    forall j :: 0 <= j < k ==> !flags[j]
  }

  /** `k` is the first flag set. */
  predicate FirstAt(flags: seq<bool>, k: nat)
  {
    k < |flags| && flags[k] && NoneBefore(flags, k)
  }

  lemma NoneBeforeExtend(flags: seq<bool>, k: nat)
    requires k < |flags| && NoneBefore(flags, k) && !flags[k]
    ensures NoneBefore(flags, k + 1)
  {
  }

  /** At most one flag is the first one set. */
  lemma FirstAtUnique(flags: seq<bool>, i: nat, k: nat)
    requires FirstAt(flags, i) && FirstAt(flags, k)
    ensures i == k
  {
  }

  /** The loop over the page patterns of the older version: a pattern whose
      title sanitises to nothing does not stop it. The result is the first
      pattern whose group is accepted. */
  method ScanPageOld(groups: seq<Option<string>>) returns (found: Option<nat>)
    ensures found.Some? ==> FirstAt(UsableFlags(groups), found.value)
    ensures found.None? ==> NoneBefore(UsableFlags(groups), |groups|)
  {
    ghost var flags := UsableFlags(groups);
    var k := 0;
    while k < |groups|
      invariant 0 <= k <= |groups|
      invariant NoneBefore(flags, k)
    {
      var usable := AcceptsGroup(groups, k);
      if usable {
        return Some(k);
      }
      NoneBeforeExtend(flags, k);
      k := k + 1;
    }
    return None;
  }

  /** One step of the older loop: sanitise pattern `k`'s group, if it matched,
      and say whether anything is left. */
  method AcceptsGroup(groups: seq<Option<string>>, k: nat) returns (usable: bool)
    requires k < |groups|
    ensures usable == UsableFlags(groups)[k]
  {
    var g := groups[k];
    if g.None? {
      return false;
    }
    var title := Sanitize(ScrapedTitle(g.value));
    return title != "";
  }

  /** `get_video_title` of the older Streamlit version: an oEmbed title that
      sanitises to nothing falls back to `video_<id>`, a scraped one makes the
      loop try the next pattern, so the title is never empty. */
  method GetVideoTitleOld(videoId: string, oembed: Option<string>, scraped: Option<seq<Option<string>>>)
    returns (title: string)
    ensures title != ""
    ensures OembedHit(oembed) ==>
      title == if Sanitize(oembed.value) != "" then Sanitize(oembed.value) else "video_" + videoId
    ensures !OembedHit(oembed) && scraped.Some? ==>
      forall k: nat :: FirstAt(UsableFlags(scraped.value), k) ==>
        title == Sanitize(ScrapedTitle(scraped.value[k].value))
    ensures !OembedHit(oembed) && (scraped.None? || NoneBefore(UsableFlags(scraped.value), |scraped.value|)) ==>
      title == "video_" + videoId
  {
    if OembedHit(oembed) {
      var clean := Sanitize(oembed.value);
      return if clean != "" then clean else "video_" + videoId;
    }
    if scraped.Some? {
      var found := ScanPageOld(scraped.value);
      if found.Some? {
        ghost var flags := UsableFlags(scraped.value);
        forall k: nat | FirstAt(flags, k)
          ensures k == found.value
        {
          FirstAtUnique(flags, k, found.value);
        }
        assert flags[found.value] && UsableOld(scraped.value[found.value]);
        return Sanitize(ScrapedTitle(scraped.value[found.value].value));
      }
    }
    return "video_" + videoId;
  }
}
