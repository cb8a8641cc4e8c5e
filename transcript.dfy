/**
 * Transcript segments and `format_transcript`, which flattens a transcript
 * into one string by joining the segment texts with single spaces.
 */
module Transcript {
  import opened Wrappers
  import opened PyText

  /** One transcript line. `text` is None when the item has no `text` key;
      `start` and `duration` are carried along and never inspected. */
  datatype Segment = Segment(text: Option<string>, start: real, duration: real)

  /** `item.get("text", "")`: a missing text reads as the empty string. */
  function TextOrEmpty(s: Segment): string
  {
    if s.text.Some? then s.text.value else ""
  }

  /** The texts of the segments, in order. */
  function Texts(data: seq<Segment>): seq<string>
  {
    seq(|data|, i requires 0 <= i < |data| => TextOrEmpty(data[i]))
  }

  /** `format_transcript`: collects the texts in a loop, then joins them with " ". */
  method FormatTranscript(data: seq<Segment>) returns (r: string)
    ensures r == Join(Texts(data), " ")
    ensures data == [] ==> r == ""
  {
    var texts: seq<string> := [];
    for i := 0 to |data|
      invariant |texts| == i
      invariant forall j :: 0 <= j < i ==> texts[j] == TextOrEmpty(data[j])
    {
      texts := texts + [TextOrEmpty(data[i])];
    }
    assert texts == Texts(data);
    r := Join(texts, " ");
  }

  /** One more segment adds a space and its text (an empty one for a segment
      without text) to the end of the flattened transcript. */
  lemma FormatAppend(data: seq<Segment>, s: Segment)
    requires data != []
    ensures Join(Texts(data + [s]), " ") == Join(Texts(data), " ") + " " + TextOrEmpty(s)
  {
    assert Texts(data + [s]) == Texts(data) + [TextOrEmpty(s)];
    JoinSnoc(Texts(data), TextOrEmpty(s), " ");
  }

  /** The flattened transcript holds every text plus one space between neighbours. */
  lemma FormatLength(data: seq<Segment>)
    requires data != []
    ensures |Join(Texts(data), " ")| == TotalLength(Texts(data)) + |data| - 1
  {
    JoinLength(Texts(data), " ");
  }

  /** When no text contains a space, splitting the flattened transcript on
      " " gives back the texts one by one. */
  lemma FormatSplitRoundTrip(data: seq<Segment>)
    requires data != []
    requires forall i :: 0 <= i < |data| ==> ' ' !in TextOrEmpty(data[i])
    ensures Split(Join(Texts(data), " "), " ") == Texts(data)
  {
    var xs := Texts(data);
    forall i | 0 <= i < |xs|
      ensures !Contains(xs[i] + " "[..0], " ")
    {
      assert xs[i] + " "[..0] == xs[i];
      ContainsHead(xs[i], " ");
    }
    SplitJoin(xs, " ");
  }
}
