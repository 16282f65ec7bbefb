/** The overview paragraph (`generateOverview`, backend/services/huggingFaceService.js): the
    opening sentences when they are long enough, followed by a line of statistics. */
module Overview {
  import opened Text

  const NoContent: string := "No meaningful content found in transcript."

  /** At most this many sentences open the overview, and this many keywords are named. */
  const OpeningSentences: nat := 3
  const NamedKeywords: nat := 3

  /** The opening is quoted only when it is longer than this. */
  const MinOpeningLength: nat := 50

  /** `sentences.slice(0, 3).join('. ') + '.'`. */
  function Opening(sentences: seq<string>): string {
    Join(sentences[..Min(OpeningSentences, |sentences|)], ". ") + "."
  }

  /** The statistics line. */
  function Stats(sentenceCount: nat, wordCount: nat, keywords: seq<string>): string {
    "Meeting covered " + NatToString(sentenceCount) + " key points in " + NatToString(wordCount)
      + " words. Main topics: " + Join(keywords[..Min(NamedKeywords, |keywords|)], ", ") + "."
  }

  /** `generateOverview(sentences, wordCount, keywords)`. */
  function GenerateOverview(sentences: seq<string>, wordCount: nat, keywords: seq<string>): string {
    if |sentences| == 0 then NoContent
    else
      var opening := Opening(sentences);
      var stats := Stats(|sentences|, wordCount, keywords);
      if |opening| > MinOpeningLength then opening + " " + stats else stats
  }

  lemma StatsLength(sentenceCount: nat, wordCount: nat, keywords: seq<string>)
    ensures |Stats(sentenceCount, wordCount, keywords)| > |NoContent|
  {
  }

  /** The placeholder is returned exactly when there are no sentences: otherwise the overview
      ends with the statistics line, which is longer than the placeholder. */
  lemma OverviewPlaceholder(sentences: seq<string>, wordCount: nat, keywords: seq<string>)
    ensures GenerateOverview(sentences, wordCount, keywords) == NoContent <==> sentences == []
    ensures |GenerateOverview(sentences, wordCount, keywords)| >= |NoContent|
  {
    if sentences != [] {
      StatsLength(|sentences|, wordCount, keywords);
    }
  }

  /** With sentences, the overview ends with the statistics line, and begins with the opening
      sentences exactly when these are longer than fifty characters. */
  lemma OverviewShape(sentences: seq<string>, wordCount: nat, keywords: seq<string>)
    requires sentences != []
    ensures var r := GenerateOverview(sentences, wordCount, keywords);
      var stats := Stats(|sentences|, wordCount, keywords);
      var opening := Opening(sentences);
      && |stats| <= |r| && r[|r| - |stats|..] == stats
      && (|opening| > MinOpeningLength ==>
            && |r| == |opening| + 1 + |stats| && r[..|opening|] == opening && r[|opening|] == ' ')
      && (|opening| <= MinOpeningLength ==> r == stats)
  {
    var r := GenerateOverview(sentences, wordCount, keywords);
    var stats := Stats(|sentences|, wordCount, keywords);
    var opening := Opening(sentences);
    if |opening| > MinOpeningLength {
      assert r == opening + " " + stats;
      assert r[|r| - |stats|..] == stats;
    }
  }

  /** Three sentences of more than twenty characters each make an opening long enough to quote,
      and it starts with the first sentence. */
  lemma LongOpening(sentences: seq<string>, wordCount: nat, keywords: seq<string>)
    requires |sentences| >= 3
    requires forall k :: 0 <= k < 3 ==> |sentences[k]| > 20
    ensures |Opening(sentences)| > MinOpeningLength
    ensures var r := GenerateOverview(sentences, wordCount, keywords);
      |sentences[0]| < |r| && r[..|sentences[0]|] == sentences[0]
  {
    var first := sentences[..3];
    var last := first[1..][1..];
    assert last == [sentences[2]] && last[1..] == [];
    assert TotalLength(last) == |sentences[2]|;
    assert TotalLength(first[1..]) == |sentences[1]| + TotalLength(last);
    assert TotalLength(first) == |sentences[0]| + TotalLength(first[1..]);
    var r := GenerateOverview(sentences, wordCount, keywords);
    var opening := Opening(sentences);
    var joined := Join(first, ". ");
    assert opening == joined + ".";
    assert joined[..|sentences[0]|] == sentences[0];
    assert r == opening + " " + Stats(|sentences|, wordCount, keywords);
  }

  /** The statistics line reports the number of sentences and the word count: each numeral in it
      reads back as the number it renders. */
  lemma StatsReadBack(sentenceCount: nat, wordCount: nat, keywords: seq<string>)
    ensures var s := Stats(sentenceCount, wordCount, keywords);
      var a := NatToString(sentenceCount);
      var b := NatToString(wordCount);
      var at := 16 + |a| + 15;
      && |s| >= at + |b|
      && ParseNat(s[16..16 + |a|]) == sentenceCount
      && ParseNat(s[at..at + |b|]) == wordCount
  {
    StatsNumerals(sentenceCount, wordCount, keywords);
    NatToStringRoundTrip(sentenceCount);
    NatToStringRoundTrip(wordCount);
  }

  /** Where the two numerals sit in the statistics line. */
  lemma StatsNumerals(sentenceCount: nat, wordCount: nat, keywords: seq<string>)
    ensures var s := Stats(sentenceCount, wordCount, keywords);
      var a := NatToString(sentenceCount);
      var b := NatToString(wordCount);
      var at := 16 + |a| + 15;
      && |s| >= at + |b|
      && s[16..16 + |a|] == a
      && s[at..at + |b|] == b
  {
    Slots("Meeting covered ", NatToString(sentenceCount), " key points in ", NatToString(wordCount),
      " words. Main topics: " , Join(keywords[..Min(NamedKeywords, |keywords|)], ", "), ".");
  }

  lemma Slots(p: string, a: string, m: string, b: string, w: string, j: string, e: string)
    ensures var s := p + a + m + b + w + j + e;
      var at := |p| + |a| + |m|;
      && |s| >= at + |b|
      && s[|p|..|p| + |a|] == a
      && s[at..at + |b|] == b
  {
    var s := p + a + m + b + w + j + e;
    var at := |p| + |a| + |m|;
    assert forall k :: 0 <= k < |a| ==> s[|p| + k] == a[k];
    assert forall k :: 0 <= k < |b| ==> s[at + k] == b[k];
  }
}
