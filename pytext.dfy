/**
 * The Python `str` operations the transcript pipeline relies on, over
 * `seq<char>`: `str.isspace`, `str.strip`, `sep.join(xs)`, `s.split(sep)`
 * and `s.replace(old, "")`.
 */
module PyText {

  /** `c.isspace()` for Python 3 strings: the ASCII controls 9-13 and 28-31,
      the space, and the Unicode separators Python counts as whitespace. */
  predicate IsSpace(c: char)
  {
    || c == ' '
    || ('\t' <= c <= '\r')
    || ('\U{1C}' <= c <= '\U{1F}')
    || c == '\U{85}' || c == '\U{A0}' || c == '\U{1680}'
    || ('\U{2000}' <= c <= '\U{200A}')
    || c == '\U{2028}' || c == '\U{2029}' || c == '\U{202F}'
    || c == '\U{205F}' || c == '\U{3000}'
  }

  predicate AllSpace(s: string)
  {
    forall i {:trigger IsSpace(s[i])} :: 0 <= i < |s| ==> IsSpace(s[i])
  }

  /** `s.lstrip()`: drops the leading whitespace and nothing else. */
  function TrimLeft(s: string): (r: string)
    ensures |r| <= |s| && r == s[|s| - |r|..]
    ensures r != [] ==> !IsSpace(r[0])
    decreases |s|
  {
    if s != [] && IsSpace(s[0]) then TrimLeft(s[1..]) else s
  }

  /** `s.rstrip()`: drops the trailing whitespace and nothing else. */
  function TrimRight(s: string): (r: string)
    ensures |r| <= |s| && r == s[..|r|]
    ensures r != [] ==> !IsSpace(r[|r| - 1])
    decreases |s|
  {
    if s != [] && IsSpace(s[|s| - 1]) then TrimRight(s[..|s| - 1]) else s
  }

  /** What `lstrip` removes is whitespace. */
  lemma {:induction false} TrimLeftCut(s: string)
    ensures AllSpace(s[..|s| - |TrimLeft(s)|])
    decreases |s|
  {
    if s != [] && IsSpace(s[0]) {
      TrimLeftCut(s[1..]);
      var n := |s| - |TrimLeft(s)|;
      forall i | 0 <= i < n
        ensures IsSpace(s[..n][i])
      {
        if i > 0 {
          assert s[..n][i] == s[1..][..n - 1][i - 1];
        }
      }
    }
  }

  /** What `rstrip` removes is whitespace. */
  lemma {:induction false} TrimRightCut(s: string)
    ensures AllSpace(s[|TrimRight(s)|..])
    decreases |s|
  {
    if s != [] && IsSpace(s[|s| - 1]) {
      var u := s[..|s| - 1];
      TrimRightCut(u);
      var n := |TrimRight(s)|;
      forall i | 0 <= i < |s| - n
        ensures IsSpace(s[n..][i])
      {
        if n + i < |s| - 1 {
          assert s[n..][i] == u[n..][i];
        }
      }
    }
  }

  /** `s.strip()`: the slice of `s` left once whitespace is removed at both ends. */
  function Strip(s: string): (r: string)
    ensures |r| <= |s|
    ensures r != [] ==> !IsSpace(r[0]) && !IsSpace(r[|r| - 1])
  {
    TrimRight(TrimLeft(s))
  }

  /** What `Strip` keeps: a contiguous slice of its input, with only
      whitespace cut away on either side, that neither starts nor ends in whitespace. */
  lemma StripSlice(s: string) returns (lo: nat, hi: nat)
    ensures lo <= hi <= |s| && Strip(s) == s[lo..hi]
    ensures AllSpace(s[..lo]) && AllSpace(s[hi..])
    ensures Strip(s) != [] ==> !IsSpace(Strip(s)[0]) && !IsSpace(Strip(s)[|Strip(s)| - 1])
  {
    var l := TrimLeft(s);
    TrimLeftCut(s);
    TrimRightCut(l);
    lo := |s| - |l|;
    hi := lo + |TrimRight(l)|;
    assert s[lo..hi] == l[..|TrimRight(l)|];
    assert s[hi..] == l[|TrimRight(l)|..];
  }

  /** Strip removes everything exactly when there is nothing but whitespace. */
  lemma StripEmptyIff(s: string)
    ensures Strip(s) == [] <==> AllSpace(s)
  {
    var lo, hi := StripSlice(s);
    if AllSpace(s) {
      TrimLeftAllSpace(s);
    }
    AllSpaceAround(s, lo, hi);
  }

  /** Whitespace on both sides of an empty middle is whitespace throughout. */
  lemma AllSpaceAround(s: string, lo: nat, hi: nat)
    requires lo <= hi <= |s| && AllSpace(s[..lo]) && AllSpace(s[hi..])
    ensures lo == hi ==> AllSpace(s)
  {
    if lo == hi {
      assert s == s[..lo] + s[hi..];
      AllSpaceAppend(s[..lo], s[hi..]);
    }
  }

  /** A string with no whitespace at either end is its own strip. */
  lemma StripUnpadded(s: string)
    requires s != [] ==> !IsSpace(s[0]) && !IsSpace(s[|s| - 1])
    ensures Strip(s) == s
  {
  }

  /** Whitespace added around a string does not change its strip. */
  lemma {:induction false} StripPadded(a: string, s: string, b: string)
    requires AllSpace(a) && AllSpace(b)
    ensures Strip(a + s + b) == Strip(s)
  {
    var x := s + b;
    assert a + s + b == a + x;
    StripLeftPadded(a, x);
    StripRightPadded(s, b);
  }

  /** Leading whitespace does not change a strip. */
  lemma StripLeftPadded(a: string, x: string)
    requires AllSpace(a)
    ensures Strip(a + x) == Strip(x)
  {
    TrimLeftPadded(a, x);
  }

  lemma StripRightPadded(s: string, b: string)
    requires AllSpace(b)
    ensures Strip(s + b) == Strip(s)
  {
    if AllSpace(s) {
      AllSpaceAppend(s, b);
      TrimLeftAllSpace(s + b);
      TrimLeftAllSpace(s);
    } else {
      TrimLeftKeepsSuffix(s, b);
      TrimRightPadded(TrimLeft(s), b);
    }
  }

  lemma {:induction false} TrimLeftPadded(a: string, s: string)
    requires AllSpace(a)
    ensures TrimLeft(a + s) == TrimLeft(s)
    decreases |a|
  {
    if a != [] {
      assert (a + s)[1..] == a[1..] + s;
      assert (a + s)[0] == a[0];
      TrimLeftPadded(a[1..], s);
    } else {
      assert a + s == s;
    }
  }

  lemma {:induction false} TrimRightPadded(s: string, b: string)
    requires AllSpace(b)
    ensures TrimRight(s + b) == TrimRight(s)
    decreases |b|
  {
    if b != [] {
      assert (s + b)[..|s + b| - 1] == s + b[..|b| - 1];
      assert (s + b)[|s + b| - 1] == b[|b| - 1];
      TrimRightPadded(s, b[..|b| - 1]);
    } else {
      assert s + b == s;
    }
  }

  lemma AllSpaceAppend(s: string, b: string)
    requires AllSpace(s) && AllSpace(b)
    ensures AllSpace(s + b)
  {
    forall i | 0 <= i < |s + b|
      ensures IsSpace((s + b)[i])
    {
      if i >= |s| {
        assert (s + b)[i] == b[i - |s|];
      }
    }
  }

  lemma AllSpaceSingle(c: char)
    requires IsSpace(c)
    ensures AllSpace([c])
  {
  }

  lemma AllSpaceCons(s: string)
    requires s != [] && IsSpace(s[0]) && AllSpace(s[1..])
    ensures AllSpace(s)
  {
    forall i | 1 <= i < |s|
      ensures IsSpace(s[i])
    {
      assert s[i] == s[1..][i - 1];
    }
  }

  /** Left-trimming `s + b` trims `s` alone when `s` is not all whitespace. */
  lemma {:induction false} TrimLeftKeepsSuffix(s: string, b: string)
    requires !AllSpace(s)
    ensures TrimLeft(s + b) == TrimLeft(s) + b
    decreases |s|
  {
    assert s != [];
    if IsSpace(s[0]) {
      if AllSpace(s[1..]) {
        AllSpaceCons(s);
        assert false;
      }
      assert (s + b)[1..] == s[1..] + b;
      assert (s + b)[0] == s[0];
      TrimLeftKeepsSuffix(s[1..], b);
    } else {
      assert (s + b)[0] == s[0];
    }
  }

  lemma {:induction false} TrimLeftAllSpace(b: string)
    requires AllSpace(b)
    ensures TrimLeft(b) == []
    decreases |b|
  {
    if b != [] {
      TrimLeftAllSpace(b[1..]);
    }
  }

  /** `sep.join(xs)`: the pieces in order with `sep` between neighbours. */
  function Join(xs: seq<string>, sep: string): (r: string)
    decreases |xs|
  {
    if |xs| == 0 then ""
    else if |xs| == 1 then xs[0]
    else xs[0] + sep + Join(xs[1..], sep)
  }

  /** Appending a piece appends `sep` and the piece to the joined string. */
  lemma {:induction false} JoinSnoc(xs: seq<string>, x: string, sep: string)
    requires xs != []
    ensures Join(xs + [x], sep) == Join(xs, sep) + sep + x
    decreases |xs|
  {
    if |xs| == 1 {
      assert xs + [x] == [xs[0], x];
    } else {
      assert (xs + [x])[1..] == xs[1..] + [x];
      JoinSnoc(xs[1..], x, sep);
    }
  }

  /** The joined string holds every character of every piece plus one
      separator between each pair of neighbours. */
  lemma {:induction false} JoinLength(xs: seq<string>, sep: string)
    requires xs != []
    ensures |Join(xs, sep)| == TotalLength(xs) + (|xs| - 1) * |sep|
    decreases |xs|
  {
    if |xs| > 1 {
      JoinLength(xs[1..], sep);
    }
  }

  function TotalLength(xs: seq<string>): nat
    decreases |xs|
  {
    if xs == [] then 0 else |xs[0]| + TotalLength(xs[1..])
  }

  /** Whether `sep` occurs in `s` as a contiguous piece. */
  predicate Contains(s: string, sep: string)
    decreases |s|
  {
    |s| >= |sep| && (s[..|sep|] == sep || Contains(s[1..], sep))
  }

  /** `s.split(sep)` for a non-empty `sep`: cuts at every occurrence of `sep`
      found scanning left to right, without overlaps. */
  function Split(s: string, sep: string): (r: seq<string>)
    requires sep != []
    ensures |r| >= 1
    decreases |s|
  {
    if |s| < |sep| then [s]
    else if s[..|sep|] == sep then [""] + Split(s[|sep|..], sep)
    else
      var rest := Split(s[1..], sep);
      [[s[0]] + rest[0]] + rest[1..]
  }

  /** Joining the pieces of a split with the same separator gives back the string. */
  lemma {:induction false} JoinSplit(s: string, sep: string)
    requires sep != []
    ensures Join(Split(s, sep), sep) == s
    decreases |s|
  {
    if |s| < |sep| {
    } else if s[..|sep|] == sep {
      var rest := Split(s[|sep|..], sep);
      JoinSplit(s[|sep|..], sep);
      assert ([""] + rest)[1..] == rest;
      assert Join([""] + rest, sep) == "" + sep + Join(rest, sep);
      assert s == sep + s[|sep|..];
    } else {
      var rest := Split(s[1..], sep);
      JoinSplit(s[1..], sep);
      JoinConsHead(s[0], rest, sep);
      assert s == [s[0]] + s[1..];
    }
  }

  lemma JoinConsHead(c: char, xs: seq<string>, sep: string)
    requires xs != []
    ensures Join([[c] + xs[0]] + xs[1..], sep) == [c] + Join(xs, sep)
  {
    var ys := [[c] + xs[0]] + xs[1..];
    if |xs| > 1 {
      assert ys[1..] == xs[1..];
    }
  }

  /** A string in which `sep` never occurs is split into itself alone. */
  lemma {:induction false} SplitWithoutSep(s: string, sep: string)
    requires sep != [] && !Contains(s, sep)
    ensures Split(s, sep) == [s]
    decreases |s|
  {
    if |s| >= |sep| {
      SplitWithoutSep(s[1..], sep);
      assert [s[0]] + s[1..] == s;
    }
  }

  /** No piece of a split contains the separator. */
  lemma {:induction false} SplitPiecesFree(s: string, sep: string)
    requires sep != []
    ensures forall i :: 0 <= i < |Split(s, sep)| ==> !Contains(Split(s, sep)[i], sep)
    decreases |s|
  {
    if |s| < |sep| {
      NotContainsShort(s, sep);
    } else if s[..|sep|] == sep {
      SplitPiecesFree(s[|sep|..], sep);
      NotContainsShort("", sep);
    } else {
      var rest := Split(s[1..], sep);
      SplitPiecesFree(s[1..], sep);
      SplitHeadPrefix(s[1..], sep);
      var p := [s[0]] + rest[0];
      assert p[1..] == rest[0];
      if |p| >= |sep| {
        assert p[..|sep|] == s[..|sep|];
      }
      var r := Split(s, sep);
      forall i | 0 <= i < |r| ensures !Contains(r[i], sep) {
        if i > 0 {
          assert r[i] == rest[i];
        }
      }
    }
  }

  lemma NotContainsShort(s: string, sep: string)
    requires |s| < |sep|
    ensures !Contains(s, sep)
  {
  }

  /** The first piece of a split is a prefix of the string. */
  lemma {:induction false} SplitHeadPrefix(s: string, sep: string)
    requires sep != []
    ensures |Split(s, sep)[0]| <= |s| && Split(s, sep)[0] == s[..|Split(s, sep)[0]|]
    decreases |s|
  {
    if |s| >= |sep| && s[..|sep|] != sep {
      SplitHeadPrefix(s[1..], sep);
      SplitHeadStep(s, sep);
    }
  }

  /** The step of `SplitHeadPrefix`: a first character that starts no
      separator is put before the first piece of the rest. */
  lemma SplitHeadStep(s: string, sep: string)
    requires sep != [] && |s| >= |sep| && s[..|sep|] != sep
    requires |Split(s[1..], sep)[0]| <= |s| - 1
    requires Split(s[1..], sep)[0] == s[1..][..|Split(s[1..], sep)[0]|]
    ensures |Split(s, sep)[0]| <= |s| && Split(s, sep)[0] == s[..|Split(s, sep)[0]|]
  {
    var h := Split(s[1..], sep)[0];
    assert Split(s, sep)[0] == [s[0]] + h;
    assert s[..|h| + 1] == [s[0]] + s[1..][..|h|];
  }

  /** Splitting `t + sep + rest` cuts exactly after `t` when no occurrence of
      `sep` starts inside `t`, even one that runs on into `sep` itself. */
  lemma {:induction false} SplitAfterPiece(t: string, rest: string, sep: string)
    requires sep != []
    requires !Contains(t + sep[..|sep| - 1], sep)
    ensures Split(t + sep + rest, sep) == [t] + Split(rest, sep)
    decreases |t|
  {
    var s := t + sep + rest;
    if t == [] {
      assert s == sep + rest;
      assert s[..|sep|] == sep;
      assert s[|sep|..] == rest;
    } else {
      var u := t + sep[..|sep| - 1];
      assert |u| >= |sep|;
      assert u[..|sep|] == s[..|sep|];
      assert s[..|sep|] != sep && !Contains(u[1..], sep);
      assert u[1..] == t[1..] + sep[..|sep| - 1];
      SplitAfterPiece(t[1..], rest, sep);
      SplitAfterHead(t, rest, sep);
    }
  }

  /** The step of `SplitAfterPiece`: a first character that starts no
      separator joins the first piece of the rest. */
  lemma SplitAfterHead(t: string, rest: string, sep: string)
    requires sep != [] && t != []
    requires (t + sep + rest)[..|sep|] != sep
    requires Split(t[1..] + sep + rest, sep) == [t[1..]] + Split(rest, sep)
    ensures Split(t + sep + rest, sep) == [t] + Split(rest, sep)
  {
    var s := t + sep + rest;
    assert s[1..] == t[1..] + sep + rest;
    var r := Split(s[1..], sep);
    assert r[0] == t[1..] && r[1..] == Split(rest, sep);
    assert [t[0]] + t[1..] == t;
  }

  /** Splitting a join gives back the pieces when no piece, followed by the
      start of the separator, contains the separator. */
  lemma {:induction false} SplitJoin(xs: seq<string>, sep: string)
    requires sep != [] && xs != []
    requires forall i :: 0 <= i < |xs| ==> !Contains(xs[i] + sep[..|sep| - 1], sep)
    ensures Split(Join(xs, sep), sep) == xs
    decreases |xs|
  {
    if |xs| == 1 {
      ContainsExtend(xs[0], sep[..|sep| - 1], sep);
      SplitWithoutSep(xs[0], sep);
    } else {
      SplitJoin(xs[1..], sep);
      SplitAfterPiece(xs[0], Join(xs[1..], sep), sep);
      assert [xs[0]] + xs[1..] == xs;
    }
  }

  /** An occurrence in `s` is an occurrence in `s + e`. */
  lemma {:induction false} ContainsExtend(s: string, e: string, sep: string)
    ensures Contains(s, sep) ==> Contains(s + e, sep)
    decreases |s|
  {
    if !Contains(s, sep) {
    } else if s[..|sep|] != sep {
      ContainsExtend(s[1..], e, sep);
      assert (s + e)[1..] == s[1..] + e;
    } else {
      assert (s + e)[..|sep|] == s[..|sep|];
    }
  }

  /** An occurrence of `sep` puts its first character in `s`. */
  lemma {:induction false} ContainsHead(s: string, sep: string)
    requires sep != []
    ensures Contains(s, sep) ==> sep[0] in s
    decreases |s|
  {
    if Contains(s, sep) {
      if s[..|sep|] == sep {
        assert s[0] == sep[0];
      } else {
        ContainsHead(s[1..], sep);
        assert forall c :: c in s[1..] ==> c in s;
      }
    }
  }

  /** Appending its first character to a string free of a two-character
      separator keeps it free, unless the string ends in that character and
      both characters of the separator are the same. */
  lemma {:induction false} PairFreeExtend(t: string, sep: string)
    requires |sep| == 2 && !Contains(t, sep)
    requires t != [] && t[|t| - 1] == sep[0] ==> sep[0] != sep[1]
    ensures !Contains(t + sep[..1], sep)
    decreases |t|
  {
    var u := t + sep[..1];
    if |t| >= 1 {
      assert u[1..] == t[1..] + sep[..1];
      if |t| >= 2 {
        assert u[..2] == t[..2];
      } else {
        assert u[..2] == [t[0], sep[0]];
      }
      PairFreeExtend(t[1..], sep);
    }
  }

  /** `s.replace(pat, "")`: deletes the occurrences of `pat` found scanning
      left to right, without overlaps. */
  function RemoveAll(s: string, pat: string): (r: string)
    requires pat != []
    ensures |r| <= |s|
    decreases |s|
  {
    if |s| < |pat| then s
    else if s[..|pat|] == pat then RemoveAll(s[|pat|..], pat)
    else [s[0]] + RemoveAll(s[1..], pat)
  }

  /** `s.replace(pat, "")` is `"".join(s.split(pat))`: what is removed is
      exactly the separators of the split, and the pieces between them stay. */
  lemma {:induction false} RemoveAllJoinsSplit(s: string, pat: string)
    requires pat != []
    ensures RemoveAll(s, pat) == Join(Split(s, pat), "")
    decreases |s|
  {
    if |s| < |pat| {
    } else if s[..|pat|] == pat {
      var rest := Split(s[|pat|..], pat);
      RemoveAllJoinsSplit(s[|pat|..], pat);
      assert ([""] + rest)[1..] == rest;
    } else {
      RemoveAllJoinsSplit(s[1..], pat);
      JoinConsHead(s[0], Split(s[1..], pat), "");
    }
  }

  /** A string without the pattern is left as it is. */
  lemma {:induction false} RemoveAllWithout(s: string, pat: string)
    requires pat != [] && !Contains(s, pat)
    ensures RemoveAll(s, pat) == s
    decreases |s|
  {
    if |s| >= |pat| {
      RemoveAllWithout(s[1..], pat);
    }
  }
}
