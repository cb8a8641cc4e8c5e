/**
 * `translate_transcript`: the segments are cut into batches of ten, the texts
 * of a batch are joined with " " and sent to the translator in one call, and
 * the answer is split on ". " and written back piece by piece. The translator
 * is a parameter: given the index of the batch's first segment and the joined
 * text it answers the translation, or None when the call failed.
 */
module Translation {
  import opened Wrappers
  import opened PyText
  import opened Transcript

  const BatchSize: nat := 10

  /** The translator call for one batch: first segment index, joined text. */
  type Translator = (nat, string) -> Option<string>

  /** The first index of the batch holding segment `k`. */
  function BatchStart(k: nat): nat
  {
    k / BatchSize * BatchSize
  }

  /** `transcript_data[s:s+10]` ends here. */
  function BatchEnd(data: seq<Segment>, s: nat): nat
  {
    if s + BatchSize <= |data| then s + BatchSize else |data|
  }

  lemma BatchOf(k: nat)
    ensures BatchStart(k) <= k < BatchStart(k) + BatchSize
    ensures BatchStart(k) % BatchSize == 0
  {
  }

  /** Every segment from `lo` to `hi` has a text. */
  predicate TextsPresent(data: seq<Segment>, lo: nat, hi: nat)
    requires lo <= hi <= |data|
  {
    forall k :: lo <= k < hi ==> data[k].text.Some?
  }

  /** `[item['text'] for item in batch]` for the batch starting at `s`. */
  function BatchTexts(data: seq<Segment>, s: nat): seq<string>
    requires s <= |data| && TextsPresent(data, s, BatchEnd(data, s))
  {
    seq(BatchEnd(data, s) - s, m requires 0 <= m < BatchEnd(data, s) - s => data[s + m].text.value)
  }

  /** `combined_text`. */
  function Combined(data: seq<Segment>, s: nat): string
    requires s <= |data| && TextsPresent(data, s, BatchEnd(data, s))
  {
    Join(BatchTexts(data, s), " ")
  }

  /** `translated_text`: the translation, or the joined text itself when the call failed. */
  function Reply(data: seq<Segment>, translate: Translator, s: nat): string
    requires s <= |data| && TextsPresent(data, s, BatchEnd(data, s))
  {
    match translate(s, Combined(data, s))
    case Some(t) => t
    case None => Combined(data, s)
  }

  /** `translated_text.split(". ")`. */
  function Pieces(data: seq<Segment>, translate: Translator, s: nat): seq<string>
    requires s <= |data| && TextsPresent(data, s, BatchEnd(data, s))
  {
    Split(Reply(data, translate, s), ". ")
  }

  /** The batch holding segment `k` has all its texts. */
  predicate BatchReady(data: seq<Segment>, k: nat)
  {
    k < |data| && BatchStart(k) <= |data| && TextsPresent(data, BatchStart(k), BatchEnd(data, BatchStart(k)))
  }

  /** The text segment `k` ends up with: piece `j` of its batch's answer,
      where `j` is its place in the batch, or its own text when the answer
      has fewer pieces. */
  function RealignedText(data: seq<Segment>, translate: Translator, k: nat): string
    requires BatchReady(data, k)
  {
    var s := BatchStart(k);
    var p := Pieces(data, translate, s);
    if k - s < |p| then p[k - s] else data[k].text.value
  }

  /** A realigned text is a piece of the batch's answer, which never holds
      ". ", or, when the answer has too few pieces, the segment's own text. */
  lemma RealignedTextFromAnswer(data: seq<Segment>, translate: Translator, k: nat)
    requires BatchReady(data, k)
    ensures var r := RealignedText(data, translate, k);
      r == data[k].text.value || !Contains(r, ". ")
    ensures k - BatchStart(k) >= |Pieces(data, translate, BatchStart(k))| ==>
      RealignedText(data, translate, k) == data[k].text.value
  {
    SplitPiecesFree(Reply(data, translate, BatchStart(k)), ". ");
  }

  predicate AllTextsPresent(data: seq<Segment>)
  {
    forall k :: 0 <= k < |data| ==> data[k].text.Some?
  }

  lemma AllBatchesReady(data: seq<Segment>)
    requires AllTextsPresent(data)
    ensures forall k :: 0 <= k < |data| ==> BatchReady(data, k)
  {
    forall k | 0 <= k < |data|
      ensures BatchReady(data, k)
    {
      BatchOf(k);
    }
  }

  /** `out` is `data` with every text replaced by its realigned text and
      every other field copied. */
  predicate RealignedFrom(out: seq<Segment>, data: seq<Segment>, translate: Translator)
    requires AllTextsPresent(data)
  {
    AllBatchesReady(data);
    |out| == |data|
    && forall k :: 0 <= k < |data| ==> out[k] == data[k].(text := Some(RealignedText(data, translate, k)))
  }

  /** Segment `s + j` of the batch starting at `s` takes piece `j`. */
  lemma InBatch(data: seq<Segment>, translate: Translator, s: nat, j: nat)
    requires s % BatchSize == 0 && s + j < BatchEnd(data, s)
    requires TextsPresent(data, s, BatchEnd(data, s))
    ensures BatchStart(s + j) == s && BatchReady(data, s + j)
    ensures RealignedText(data, translate, s + j) ==
      if j < |Pieces(data, translate, s)| then Pieces(data, translate, s)[j] else data[s + j].text.value
  {
    assert (s + j) / BatchSize == s / BatchSize;
  }

  lemma BatchMembersReady(data: seq<Segment>, s: nat)
    requires s % BatchSize == 0 && s <= |data|
    requires TextsPresent(data, s, BatchEnd(data, s))
    ensures forall k :: s <= k < BatchEnd(data, s) ==> BatchReady(data, k)
  {
    forall k | s <= k < BatchEnd(data, s)
      ensures BatchReady(data, k)
    {
      assert k / BatchSize == s / BatchSize;
    }
  }

  /** `out` holds the first `|out|` segments of the batch starting at `s`, realigned. */
  predicate BatchPrefix(out: seq<Segment>, data: seq<Segment>, translate: Translator, s: nat)
    requires s % BatchSize == 0 && s <= |data|
    requires TextsPresent(data, s, BatchEnd(data, s))
  {
    BatchMembersReady(data, s);
    |out| <= BatchEnd(data, s) - s
    && forall j :: 0 <= j < |out| ==> out[j] == data[s + j].(text := Some(RealignedText(data, translate, s + j)))
  }

  /** `out` holds the segments of the batch starting at `s`, realigned. */
  predicate BatchRealigned(out: seq<Segment>, data: seq<Segment>, translate: Translator, s: nat)
    requires s % BatchSize == 0 && s <= |data|
    requires TextsPresent(data, s, BatchEnd(data, s))
  {
    |out| == BatchEnd(data, s) - s && BatchPrefix(out, data, translate, s)
  }

  /** Appending the next realigned segment keeps a realigned prefix. */
  lemma BatchPrefixExtend(out: seq<Segment>, segment: Segment, data: seq<Segment>, translate: Translator, s: nat)
    requires s % BatchSize == 0 && s <= |data|
    requires TextsPresent(data, s, BatchEnd(data, s))
    requires BatchPrefix(out, data, translate, s) && |out| < BatchEnd(data, s) - s
    requires BatchReady(data, s + |out|)
    requires segment == data[s + |out|].(text := Some(RealignedText(data, translate, s + |out|)))
    ensures BatchPrefix(out + [segment], data, translate, s)
  {
    BatchMembersReady(data, s);
    var r := out + [segment];
    forall j | 0 <= j < |r|
      ensures r[j] == data[s + j].(text := Some(RealignedText(data, translate, s + j)))
    {
      if j < |out| {
        assert r[j] == out[j];
      }
    }
  }

  /** The first `|out|` segments are realigned in `out`. */
  predicate PrefixRealigned(out: seq<Segment>, data: seq<Segment>, translate: Translator)
  {
    |out| <= |data|
    && (forall k :: 0 <= k < |out| ==> BatchReady(data, k))
    && forall k :: 0 <= k < |out| ==> out[k] == data[k].(text := Some(RealignedText(data, translate, k)))
  }

  lemma PrefixExtend(out: seq<Segment>, b: seq<Segment>, data: seq<Segment>, translate: Translator)
    requires |out| % BatchSize == 0 && |out| < |data|
    requires PrefixRealigned(out, data, translate)
    requires TextsPresent(data, |out|, BatchEnd(data, |out|))
    requires BatchRealigned(b, data, translate, |out|)
    ensures PrefixRealigned(out + b, data, translate)
  {
    BatchMembersReady(data, |out|);
    var r := out + b;
    forall k | |out| <= k < |r|
      ensures r[k] == data[k].(text := Some(RealignedText(data, translate, k)))
    {
      assert r[k] == b[k - |out|];
    }
  }

  /** `texts = [item['text'] for item in batch]`: None when an item has no text. */
  method CollectTexts(data: seq<Segment>, s: nat) returns (texts: Option<seq<string>>)
    requires s < |data|
    ensures texts.None? <==> !TextsPresent(data, s, BatchEnd(data, s))
    ensures texts.Some? ==> texts.value == BatchTexts(data, s)
  {
    var batch := data[s..BatchEnd(data, s)];
    var collected: seq<string> := [];
    for j := 0 to |batch|
      invariant |collected| == j
      invariant forall m :: 0 <= m < j ==> batch[m].text.Some? && collected[m] == batch[m].text.value
    {
      if batch[j].text.None? {
        assert data[s + j].text.None?;
        return None;
      }
      collected := collected + [batch[j].text.value];
    }
    assert TextsPresent(data, s, BatchEnd(data, s));
    return Some(collected);
  }

  /** One pass of the outer loop: the texts of the batch starting at `s`
      are joined, translated, split on ". " and written back in order. */
  method RealignBatch(data: seq<Segment>, translate: Translator, s: nat) returns (out: Option<seq<Segment>>)
    requires s % BatchSize == 0 && s < |data|
    ensures out.None? <==> !TextsPresent(data, s, BatchEnd(data, s))
    ensures out.Some? ==> BatchRealigned(out.value, data, translate, s)
  {
    var texts := CollectTexts(data, s);
    if texts.None? {
      return None;
    }
    var batch := data[s..BatchEnd(data, s)];
    var combined := Join(texts.value, " ");
    var translatedText := match translate(s, combined) case Some(t) => t case None => combined;
    var pieces := Split(translatedText, ". ");
    assert pieces == Pieces(data, translate, s);
    var result: seq<Segment> := [];
    for j := 0 to |batch|
      invariant |result| == j
      invariant BatchPrefix(result, data, translate, s)
    {
      var segment := RealignOne(data, translate, s, j, pieces);
      BatchPrefixExtend(result, segment, data, translate, s);
      result := result + [segment];
    }
    return Some(result);
  }

  /** One pass of the inner loop: segment `j` of the batch takes piece `j`,
      or keeps its text when the pieces have run out. */
  method RealignOne(data: seq<Segment>, translate: Translator, s: nat, j: nat, pieces: seq<string>)
    returns (segment: Segment)
    requires s % BatchSize == 0 && s + j < BatchEnd(data, s)
    requires TextsPresent(data, s, BatchEnd(data, s))
    requires pieces == Pieces(data, translate, s)
    ensures BatchReady(data, s + j)
    ensures segment == data[s + j].(text := Some(RealignedText(data, translate, s + j)))
  {
    var text := if j < |pieces| then pieces[j] else data[s + j].text.value;
    InBatch(data, translate, s, j);
    segment := data[s + j].(text := Some(text));
  }

  /** The batch loop shared by both versions: None when some segment has no
      text (`item['text']` raises), otherwise the realigned segments. */
  method RealignBatches(data: seq<Segment>, translate: Translator) returns (out: Option<seq<Segment>>)
    ensures out.None? <==> !AllTextsPresent(data)
    ensures out.Some? ==> RealignedFrom(out.value, data, translate)
  {
    var result: seq<Segment> := [];
    var i: nat := 0;
    while i < |data|
      invariant i % BatchSize == 0
      invariant |result| == if i <= |data| then i else |data|
      invariant TextsPresent(data, 0, |result|)
      invariant PrefixRealigned(result, data, translate)
    {
      var b := RealignBatch(data, translate, i);
      if b.None? {
        return None;
      }
      PrefixExtend(result, b.value, data, translate);
      result := result + b.value;
      i := i + BatchSize;
    }
    return Some(result);
  }

  /** What `translate_transcript` of the current pipeline does: return a
      pair, or let the `KeyError` of a segment without text escape. */
  datatype Outcome = Returned(segments: seq<Segment>, translated: bool) | KeyErrorRaised

  /** English and undetected transcripts are passed through untouched. */
  predicate SkipsTranslation(sourceLang: string)
  {
    sourceLang == "en" || sourceLang == "unknown"
  }

  /** `translate_transcript` of the current pipeline. It reports a
      translation even when every translator call failed. */
  method TranslateTranscript(data: seq<Segment>, sourceLang: string, translate: Translator) returns (res: Outcome)
    ensures SkipsTranslation(sourceLang) ==> res == Returned(data, false)
    ensures !SkipsTranslation(sourceLang) && !AllTextsPresent(data) ==> res == KeyErrorRaised
    ensures !SkipsTranslation(sourceLang) && AllTextsPresent(data) ==>
      res.Returned? && res.translated && RealignedFrom(res.segments, data, translate)
  {
    if SkipsTranslation(sourceLang) {
      return Returned(data, false);
    }
    var out := RealignBatches(data, translate);
    if out.None? {
      return KeyErrorRaised;
    }
    return Returned(out.value, true);
  }

  /** `translate_transcript` of the older version: its outer `except`
      turns the missing text into the untouched input and False. */
  method TranslateTranscriptOld(data: seq<Segment>, sourceLang: string, translate: Translator)
    returns (segments: seq<Segment>, translated: bool)
    ensures SkipsTranslation(sourceLang) || !AllTextsPresent(data) ==> segments == data && !translated
    ensures !SkipsTranslation(sourceLang) && AllTextsPresent(data) ==>
      translated && RealignedFrom(segments, data, translate)
  {
    if SkipsTranslation(sourceLang) {
      return data, false;
    }
    var out := RealignBatches(data, translate);
    if out.None? {
      return data, false;
    }
    return out.value, true;
  }

  /** A batch whose call failed and whose joined text has no ". " gives its
      first segment the whole joined batch; the others keep their text. */
  lemma FailedBatchUnsplit(data: seq<Segment>, translate: Translator, k: nat)
    requires BatchReady(data, k)
    requires translate(BatchStart(k), Combined(data, BatchStart(k))) == None
    requires !Contains(Combined(data, BatchStart(k)), ". ")
    ensures RealignedText(data, translate, k) ==
      if k == BatchStart(k) then Combined(data, BatchStart(k)) else data[k].text.value
  {
    SplitWithoutSep(Combined(data, BatchStart(k)), ". ");
  }

  /** A translator that answers one sentence per segment, joined with ". ",
      each free of ". ", lines every translation up with its segment. */
  lemma SentencePerSegmentAligns(data: seq<Segment>, translate: Translator, s: nat, ts: seq<string>)
    requires s % BatchSize == 0 && s < |data|
    requires TextsPresent(data, s, BatchEnd(data, s))
    requires |ts| == BatchEnd(data, s) - s
    requires forall m :: 0 <= m < |ts| ==> !Contains(ts[m], ". ")
    requires translate(s, Combined(data, s)) == Some(Join(ts, ". "))
    ensures forall j :: 0 <= j < |ts| ==>
      BatchReady(data, s + j) && RealignedText(data, translate, s + j) == ts[j]
  {
    SentencesSplitBack(ts);
    assert Reply(data, translate, s) == Join(ts, ". ");
    assert Pieces(data, translate, s) == ts;
    BatchMembersReady(data, s);
    forall j | 0 <= j < |ts|
      ensures BatchReady(data, s + j) && RealignedText(data, translate, s + j) == ts[j]
    {
      InBatch(data, translate, s, j);
    }
  }

  /** Sentences free of ". " joined with ". " split back into themselves. */
  lemma SentencesSplitBack(ts: seq<string>)
    requires ts != []
    requires forall m :: 0 <= m < |ts| ==> !Contains(ts[m], ". ")
    ensures Split(Join(ts, ". "), ". ") == ts
  {
    forall m | 0 <= m < |ts|
      ensures !Contains(ts[m] + ". "[..1], ". ")
    {
      PairFreeExtend(ts[m], ". ");
    }
    SplitJoin(ts, ". ");
  }

  /** As written, a failed call does not keep the original texts: two
      segments "a", "b" without a '.' come back as "a b" and "b". */
  lemma FailureRepeatsText(a: string, b: string, start0: real, duration0: real, start1: real, duration1: real,
                           translate: Translator, out: seq<Segment>)
    requires '.' !in a && '.' !in b
    requires translate(0, a + " " + b) == None
    requires RealignedFrom(out, [Segment(Some(a), start0, duration0), Segment(Some(b), start1, duration1)], translate)
    ensures out[0].text == Some(a + " " + b) && out[1].text == Some(b)
    ensures out != [Segment(Some(a), start0, duration0), Segment(Some(b), start1, duration1)]
  {
    var data := [Segment(Some(a), start0, duration0), Segment(Some(b), start1, duration1)];
    assert BatchEnd(data, 0) == 2;
    assert BatchTexts(data, 0) == [a, b];
    assert [a, b][1..] == [b];
    assert Join([a, b], " ") == a + " " + b;
    assert Combined(data, 0) == Join([a, b], " ");
    ContainsHead(a + " " + b, ". ");
    assert '.' !in a + " " + b;
    BatchOf(1);
    FailedBatchUnsplit(data, translate, 0);
    FailedBatchUnsplit(data, translate, 1);
    assert |out[0].text.value| > |a|;
  }

  /** The evidently intended text of segment `k`: its own text when the
      call for its batch failed, the realigned piece otherwise. */
  function IntendedText(data: seq<Segment>, translate: Translator, k: nat): string
    requires BatchReady(data, k)
  {
    var s := BatchStart(k);
    if translate(s, Combined(data, s)).None? then data[k].text.value else RealignedText(data, translate, k)
  }

  /** The segments the intended loop would return. */
  function IntendedRealignment(data: seq<Segment>, translate: Translator): (r: seq<Segment>)
    requires AllTextsPresent(data)
    ensures |r| == |data|
  {
    AllBatchesReady(data);
    seq(|data|, k requires 0 <= k < |data| => data[k].(text := Some(IntendedText(data, translate, k))))
  }

  /** With the intended definition, a translator that always fails leaves
      the transcript exactly as it was. */
  lemma IntendedFailureKeepsTranscript(data: seq<Segment>, translate: Translator)
    requires AllTextsPresent(data)
    requires forall s: nat, t: string :: translate(s, t) == None
    ensures IntendedRealignment(data, translate) == data
  {
    var r := IntendedRealignment(data, translate);
    forall k | 0 <= k < |data|
      ensures r[k] == data[k]
    {
      BatchOf(k);
      assert translate(BatchStart(k), Combined(data, BatchStart(k))) == None;
    }
  }

  /** Where the call succeeded, the intended and the written loop agree. */
  lemma IntendedAgreesOnSuccess(data: seq<Segment>, translate: Translator, out: seq<Segment>)
    requires AllTextsPresent(data)
    requires forall s: nat, t: string :: translate(s, t).Some?
    requires RealignedFrom(out, data, translate)
    ensures IntendedRealignment(data, translate) == out
  {
    var r := IntendedRealignment(data, translate);
    forall k | 0 <= k < |data|
      ensures r[k] == out[k]
    {
      BatchOf(k);
      assert translate(BatchStart(k), Combined(data, BatchStart(k))).Some?;
    }
  }
}
