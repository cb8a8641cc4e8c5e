/**
 * `summarize_basic`: the extractive summary used when no language model is
 * configured. The text is cut at runs of `.`, `!` and `?`, the pieces are
 * stripped and those longer than 20 characters kept; at most ten of them
 * (the first three, the middle four and the last three) are joined with
 * blank lines between a header and a footer.
 */
module Summary {
  import opened PyText

  /** The character class `[.!?]`. */
  predicate IsTerminator(c: char)
  {
    c == '.' || c == '!' || c == '?'
  }

  predicate NoTerminator(s: string)
  {
    forall i :: 0 <= i < |s| ==> !IsTerminator(s[i])
  }

  /** The maximal run of terminators at the start of `s` removed. */
  function SkipTerminators(s: string): (r: string)
    ensures |r| <= |s| && r == s[|s| - |r|..]
    ensures r != [] ==> !IsTerminator(r[0])
    decreases |s|
  {
    if s != [] && IsTerminator(s[0]) then SkipTerminators(s[1..]) else s
  }

  /** `re.split(r'[.!?]+', s)`: cut at every maximal run of terminators. */
  function SplitSentences(s: string): (r: seq<string>)
    ensures |r| >= 1
    ensures forall i :: 0 <= i < |r| ==> NoTerminator(r[i])
    decreases |s|
  {
    if s == [] then [""]
    else if IsTerminator(s[0]) then [""] + SplitSentences(SkipTerminators(s))
    else
      var rest := SplitSentences(s[1..]);
      [[s[0]] + rest[0]] + rest[1..]
  }

  /** The characters of `s` that are not terminators, in order. */
  function Letters(s: string): string
    decreases |s|
  {
    if s == [] then ""
    else if IsTerminator(s[0]) then Letters(s[1..])
    else [s[0]] + Letters(s[1..])
  }

  function Concat(xs: seq<string>): string
    decreases |xs|
  {
    if xs == [] then "" else xs[0] + Concat(xs[1..])
  }

  lemma {:induction false} LettersSkip(s: string)
    ensures Letters(SkipTerminators(s)) == Letters(s)
    decreases |s|
  {
    if s != [] && IsTerminator(s[0]) {
      LettersSkip(s[1..]);
    }
  }

  /** Splitting loses only the terminators: the pieces put together are the
      text with every `.`, `!` and `?` removed. */
  lemma {:induction false} SplitSentencesKeepsLetters(s: string)
    ensures Concat(SplitSentences(s)) == Letters(s)
    decreases |s|
  {
    if s == [] {
    } else if IsTerminator(s[0]) {
      SplitSentencesKeepsLetters(SkipTerminators(s));
      LettersSkip(s);
    } else {
      var rest := SplitSentences(s[1..]);
      SplitSentencesKeepsLetters(s[1..]);
      var r := [[s[0]] + rest[0]] + rest[1..];
      assert r[1..] == rest[1..];
      assert Concat(rest) == rest[0] + Concat(rest[1..]);
    }
  }

  /** `s` with every maximal run of terminators written as one `.`: a
      terminator followed by another is dropped, any other becomes `.`. */
  function Collapse(s: string): (r: string)
    ensures |r| <= |s|
    decreases |s|
  {
    if s == [] then ""
    else if IsTerminator(s[0]) && |s| > 1 && IsTerminator(s[1]) then Collapse(s[1..])
    else if IsTerminator(s[0]) then "." + Collapse(s[1..])
    else [s[0]] + Collapse(s[1..])
  }

  /** A run of terminators collapses to a single `.`. */
  lemma {:induction false} CollapseRun(s: string)
    requires s != [] && IsTerminator(s[0])
    ensures Collapse(s) == "." + Collapse(SkipTerminators(s))
    decreases |s|
  {
    if |s| > 1 && IsTerminator(s[1]) {
      CollapseRun(s[1..]);
    }
  }

  /** The split cuts exactly at the runs of terminators: joining its pieces
      with `.` gives the text with each run collapsed to one `.`. As no piece
      holds a terminator, this fixes the pieces. */
  lemma {:induction false} SplitSentencesCutsAtRuns(s: string)
    ensures Join(SplitSentences(s), ".") == Collapse(s)
    decreases |s|
  {
    if s == [] {
    } else if IsTerminator(s[0]) {
      var rest := SplitSentences(SkipTerminators(s));
      SplitSentencesCutsAtRuns(SkipTerminators(s));
      CollapseRun(s);
      assert ([""] + rest)[1..] == rest;
    } else {
      SplitSentencesCutsAtRuns(s[1..]);
      JoinConsHead(s[0], SplitSentences(s[1..]), ".");
    }
  }

  /** So the sentence split is `str.split('.')` of the collapsed text. */
  lemma SplitSentencesAsStrSplit(s: string)
    ensures SplitSentences(s) == Split(Collapse(s), ".")
  {
    var xs := SplitSentences(s);
    SplitSentencesCutsAtRuns(s);
    forall i | 0 <= i < |xs|
      ensures !Contains(xs[i] + "."[..0], ".")
    {
      assert xs[i] + "."[..0] == xs[i];
      ContainsHead(xs[i], ".");
      assert '.' !in xs[i] by {
        forall k | 0 <= k < |xs[i]| ensures xs[i][k] != '.' {
          assert !IsTerminator(xs[i][k]);
        }
      }
    }
    SplitJoin(xs, ".");
  }

  /** A text without terminators is a single sentence. */
  lemma {:induction false} NoTerminatorOneSentence(s: string)
    requires NoTerminator(s)
    ensures SplitSentences(s) == [s]
    decreases |s|
  {
    if s != [] {
      NoTerminatorOneSentence(s[1..]);
      assert [s[0]] + s[1..] == s;
    }
  }

  /** Shortest length a kept sentence exceeds. */
  const MinSentenceLength := 20

  /** `[s.strip() for s in pieces if len(s.strip()) > 20]`. */
  function KeepLong(pieces: seq<string>): (r: seq<string>)
    ensures |r| <= |pieces|
    decreases |pieces|
  {
    if pieces == [] then []
    else
      var t := Strip(pieces[0]);
      if |t| > MinSentenceLength then [t] + KeepLong(pieces[1..]) else KeepLong(pieces[1..])
  }

  /** A sentence the summary may use. */
  predicate IsCandidate(x: string)
  {
    |x| > MinSentenceLength && NoTerminator(x) && !IsSpace(x[0]) && !IsSpace(x[|x| - 1])
  }

  /** The kept sentences of `text`. */
  function Candidates(text: string): seq<string>
  {
    KeepLong(SplitSentences(text))
  }

  /** Stripping a terminator-free piece leaves it terminator-free. */
  lemma StripNoTerminator(s: string)
    requires NoTerminator(s)
    ensures NoTerminator(Strip(s))
  {
    var lo, hi := StripSlice(s);
    assert forall i :: 0 <= i < hi - lo ==> Strip(s)[i] == s[lo + i];
  }

  /** `x` is one of the pieces, stripped, and longer than 20 characters. */
  predicate StrippedLongPiece(pieces: seq<string>, x: string)
  {
    |x| > MinSentenceLength && exists i :: 0 <= i < |pieces| && Strip(pieces[i]) == x
  }

  lemma StrippedLongPieceCons(pieces: seq<string>, x: string)
    requires pieces != []
    ensures StrippedLongPiece(pieces, x) <==>
      (|x| > MinSentenceLength && Strip(pieces[0]) == x) || StrippedLongPiece(pieces[1..], x)
  {
    if StrippedLongPiece(pieces, x) {
      var i :| 0 <= i < |pieces| && Strip(pieces[i]) == x;
      if i > 0 {
        assert Strip(pieces[1..][i - 1]) == x;
      }
    }
    if StrippedLongPiece(pieces[1..], x) {
      var i :| 0 <= i < |pieces[1..]| && Strip(pieces[1..][i]) == x;
      assert Strip(pieces[i + 1]) == x;
    }
  }

  /** Exactly the stripped pieces longer than 20 characters are kept, each
      terminator-free and without surrounding whitespace. */
  lemma {:induction false} KeepLongMembers(pieces: seq<string>, x: string)
    requires forall i :: 0 <= i < |pieces| ==> NoTerminator(pieces[i])
    ensures x in KeepLong(pieces) <==> StrippedLongPiece(pieces, x)
    ensures x in KeepLong(pieces) ==> IsCandidate(x)
    decreases |pieces|
  {
    if pieces != [] {
      var t := Strip(pieces[0]);
      var tail := pieces[1..];
      KeepLongMembers(tail, x);
      StripNoTerminator(pieces[0]);
      assert x in KeepLong(pieces) <==> (|t| > MinSentenceLength && x == t) || x in KeepLong(tail);
      StrippedLongPieceCons(pieces, x);
    }
  }

  /** One piece is kept, stripped, exactly when it is long enough. */
  lemma KeepLongSingle(p: string)
    ensures KeepLong([p]) == if |Strip(p)| > MinSentenceLength then [Strip(p)] else []
  {
    assert [p][1..] == [];
  }

  /** The filter works piece by piece: the sentences kept from `a + b` are
      those kept from `a` followed by those kept from `b`, so the kept
      sentences stay in text order and a repeated sentence is kept each time. */
  lemma {:induction false} KeepLongAppend(a: seq<string>, b: seq<string>)
    ensures KeepLong(a + b) == KeepLong(a) + KeepLong(b)
    decreases |a|
  {
    if a == [] {
      assert a + b == b;
    } else {
      assert (a + b)[0] == a[0];
      assert (a + b)[1..] == a[1..] + b;
      KeepLongAppend(a[1..], b);
    }
  }

  /** The kept sentences of a text are the stripped pieces of its split
      that are longer than 20 characters, and each is a candidate. */
  lemma CandidatesOf(text: string, x: string)
    ensures x in Candidates(text) <==> StrippedLongPiece(SplitSentences(text), x)
    ensures x in Candidates(text) ==> IsCandidate(x)
  {
    var pieces := SplitSentences(text);
    assert Candidates(text) == KeepLong(pieces);
    KeepLongMembers(pieces, x);
  }

  /** How many sentences the summary keeps at most. */
  const MaxKeySentences := 10

  /** The index in the kept sentences of key sentence `i` when there are
      more than ten: the first three, the four around the middle, the last three. */
  function KeyIndex(total: nat, i: nat): int
  {
    if i < 3 then i
    else if i < 7 then total / 2 - 2 + (i - 3)
    else total - 3 + (i - 7)
  }

  /** The key sentences: all of them up to ten, otherwise
      `s[:3] + s[total//2-2:total//2+2] + s[-3:]`. */
  function SelectKey(xs: seq<string>): (r: seq<string>)
    ensures |xs| <= MaxKeySentences ==> r == xs
    ensures |xs| > MaxKeySentences ==>
      |r| == MaxKeySentences &&
      forall i :: 0 <= i < MaxKeySentences ==> 0 <= KeyIndex(|xs|, i) < |xs| && r[i] == xs[KeyIndex(|xs|, i)]
  {
    var total := |xs|;
    if total <= MaxKeySentences then xs
    else xs[..3] + xs[total / 2 - 2..total / 2 + 2] + xs[total - 3..]
  }

  /** For more than ten sentences the three windows do not overlap: the key
      indices strictly increase, so every key sentence is picked once and
      in text order. */
  lemma KeyIndicesIncrease(total: nat, i: nat, j: nat)
    requires total > MaxKeySentences && i < j < MaxKeySentences
    ensures 0 <= KeyIndex(total, i) < KeyIndex(total, j) < total
  {
  }

  /** For thirty sentences the key ones are 0-2, 13-16 and 27-29. */
  lemma ThirtySentences(xs: seq<string>)
    requires |xs| == 30
    ensures SelectKey(xs) == [xs[0], xs[1], xs[2], xs[13], xs[14], xs[15], xs[16], xs[27], xs[28], xs[29]]
  {
  }

  /** The key sentences of `text`. */
  function KeySentences(text: string): seq<string>
  {
    SelectKey(Candidates(text))
  }

  const Header := "Key Points from Transcript:\n\n"
  const Footer := "\n\n(Note: Basic summary, no AI.)"
  const OldHeader := "**Key Points from Transcript:**\n\n"
  const OldFooter := "\n\n**Note:** This is a basic summary. Enable OpenAI in settings for a more detailed analysis with main topics, intentions, and key takeaways."

  /** The summary text between a header and a footer. */
  function Wrap(header: string, text: string, footer: string): (r: string)
    ensures |r| >= |header| + |footer|
    ensures r[..|header|] == header && r[|r| - |footer|..] == footer
  {
    header + Join(KeySentences(text), "\n\n") + footer
  }

  /** `summarize_basic` of the current pipeline. */
  function SummarizeBasic(text: string): (r: string)
    ensures |r| >= |Header| + |Footer|
    ensures r[..|Header|] == Header && r[|r| - |Footer|..] == Footer
  {
    Wrap(Header, text, Footer)
  }

  /** `summarize_basic` of the older version: the same sentences in a
      Markdown header and a longer footer. */
  function SummarizeBasicOld(text: string): (r: string)
    ensures |r| >= |OldHeader| + |OldFooter|
    ensures r[..|OldHeader|] == OldHeader && r[|r| - |OldFooter|..] == OldFooter
  {
    Wrap(OldHeader, text, OldFooter)
  }

  /** Both versions summarise with the same sentences. */
  lemma SameSentencesBothVersions(text: string)
    ensures SummarizeBasic(text)[|Header|..|SummarizeBasic(text)| - |Footer|]
         == SummarizeBasicOld(text)[|OldHeader|..|SummarizeBasicOld(text)| - |OldFooter|]
  {
    WrapBody(Header, text, Footer);
    WrapBody(OldHeader, text, OldFooter);
  }

  /** Between header and footer sit the key sentences, joined by blank lines. */
  lemma WrapBody(header: string, text: string, footer: string)
    ensures |Wrap(header, text, footer)| >= |header| + |footer|
    ensures Wrap(header, text, footer)[|header|..|Wrap(header, text, footer)| - |footer|]
         == Join(KeySentences(text), "\n\n")
  {
    var body := Join(KeySentences(text), "\n\n");
    var r := Wrap(header, text, footer);
    assert r == header + body + footer;
    assert r[|header|..|r| - |footer|] == body;
  }

  /** Between header and footer, splitting on blank lines gives back the key
      sentences, when none of them holds a blank line of its own. */
  lemma SummaryRoundTrip(text: string)
    requires KeySentences(text) != []
    requires forall i :: 0 <= i < |KeySentences(text)| ==> !Contains(KeySentences(text)[i], "\n\n")
    ensures Split(SummarizeBasic(text)[|Header|..|SummarizeBasic(text)| - |Footer|], "\n\n") == KeySentences(text)
  {
    var keys := KeySentences(text);
    WrapBody(Header, text, Footer);
    forall i | 0 <= i < |keys|
      ensures IsCandidate(keys[i])
    {
      KeyIsCandidate(text, i);
    }
    BlankLineRoundTrip(keys);
  }

  /** Candidates joined by blank lines split back into themselves, when none
      holds a blank line of its own. */
  lemma BlankLineRoundTrip(keys: seq<string>)
    requires keys != []
    requires forall i :: 0 <= i < |keys| ==> IsCandidate(keys[i]) && !Contains(keys[i], "\n\n")
    ensures Split(Join(keys, "\n\n"), "\n\n") == keys
  {
    forall i | 0 <= i < |keys|
      ensures !Contains(keys[i] + "\n\n"[..1], "\n\n")
    {
      var x := keys[i];
      LastNotBreak(x);
      assert "\n\n"[0] == '\n';
      assert x[|x| - 1] != "\n\n"[0];
      assert !Contains(x, "\n\n");
      PairFreeExtend(x, "\n\n");
    }
    SplitJoin(keys, "\n\n");
  }

  lemma LastNotBreak(x: string)
    requires IsCandidate(x)
    ensures x[|x| - 1] != '\n'
  {
    assert IsSpace('\n');
  }

  /** Every key sentence is a candidate. */
  lemma KeyIsCandidate(text: string, i: nat)
    requires i < |KeySentences(text)|
    ensures IsCandidate(KeySentences(text)[i])
  {
    var xs := Candidates(text);
    var x := KeySentences(text)[i];
    if |xs| > MaxKeySentences {
      assert x == xs[KeyIndex(|xs|, i)];
    }
    assert x in xs;
    CandidatesOf(text, x);
  }

  /** With no sentence longer than 20 characters the summary is the header
      and the footer alone. */
  lemma NoCandidateEmptySummary(text: string)
    requires Candidates(text) == []
    ensures SummarizeBasic(text) == Header + Footer
  {
  }
}
