/** Topic lines (`createTopics`, backend/services/huggingFaceService.js): one line for each of the
    first five keywords, quoting the first sentence that mentions it. */
module Topics {
  import opened Text

  const MaxTopics: nat := 5

  /** Longer sentences are cut to this many characters and marked with `...`. */
  const SnippetLength: nat := 100

  const GeneralDiscussion: string := "General discussion - see full transcript"

  const DiscussionAbout: string := "Discussion about "

  /** `s.toLowerCase().includes(keyword.toLowerCase())`. */
  predicate Mentions(s: string, keyword: string) {
    Contains(Lower(s), Lower(keyword))
  }

  /** `sentences.find(...)`: the position of the first sentence mentioning `keyword`. */
  function FindMentioning(sentences: seq<string>, keyword: string): (r: Option<nat>)
    ensures r.Some? ==> r.value < |sentences| && Mentions(sentences[r.value], keyword)
    ensures r.Some? ==> forall k :: 0 <= k < r.value ==> !Mentions(sentences[k], keyword)
    ensures r.None? ==> forall k :: 0 <= k < |sentences| ==> !Mentions(sentences[k], keyword)
  {
    if sentences == [] then None
    else if Mentions(sentences[0], keyword) then Some(0)
    else match FindMentioning(sentences[1..], keyword)
      case None => None
      case Some(i) => Some(i + 1)
  }

  /** `keyword.charAt(0).toUpperCase() + keyword.slice(1)`. */
  function Capitalize(keyword: string): (r: string)
    ensures |r| == |keyword|
    ensures Lower(r) == Lower(keyword)
    ensures r != [] ==> !('a' <= r[0] <= 'z') && r[0] == UpperChar(keyword[0])
    ensures r != [] ==> r[1..] == keyword[1..]
  {
    if keyword == [] then []
    else
      CapitalizeLower(keyword);
      [UpperChar(keyword[0])] + keyword[1..]
  }

  /** Upper-casing the first character does not change the lower-case form. */
  lemma CapitalizeLower(keyword: string)
    requires keyword != []
    ensures Lower([UpperChar(keyword[0])] + keyword[1..]) == Lower(keyword)
  {
    assert keyword == [keyword[0]] + keyword[1..];
    LowerAppend([keyword[0]], keyword[1..]);
    LowerAppend([UpperChar(keyword[0])], keyword[1..]);
  }

  /** A sentence longer than 100 characters is cut to its first 100 and marked with `...`. */
  function Snippet(s: string): (r: string)
    ensures |r| <= SnippetLength + 3
    ensures |s| <= SnippetLength ==> r == s
    ensures |s| > SnippetLength ==> |r| == SnippetLength + 3 && r[..SnippetLength] == s[..SnippetLength]
    ensures |s| > SnippetLength ==> r[SnippetLength..] == "..."
  {
    if |s| > SnippetLength then s[..SnippetLength] + "..." else s
  }

  /** The line for one keyword. A found sentence that is empty is falsy in JavaScript and
      counts as not found. */
  function Topic(keyword: string, sentences: seq<string>): string {
    match FindMentioning(sentences, keyword)
    case Some(i) =>
      if sentences[i] != "" then Capitalize(keyword) + ": " + Snippet(sentences[i])
      else DiscussionAbout + keyword
    case None => DiscussionAbout + keyword
  }

  /** The topic lines for the first five keywords, or the general placeholder when there are
      none. */
  function TopicsOf(keywords: seq<string>, sentences: seq<string>): seq<string> {
    var n := Min(MaxTopics, |keywords|);
    if n > 0 then seq(n, i requires 0 <= i < n => Topic(keywords[i], sentences))
    else [GeneralDiscussion]
  }

  /** `createTopics(keywords, sentences)`. */
  method CreateTopics(keywords: seq<string>, sentences: seq<string>) returns (lines: seq<string>)
    ensures lines == TopicsOf(keywords, sentences)
  {
    var topics: seq<string> := [];
    var n := Min(MaxTopics, |keywords|);
    for i := 0 to n
      invariant |topics| == i
      invariant forall j :: 0 <= j < i ==> topics[j] == Topic(keywords[j], sentences)
    {
      var line := TopicLine(keywords[i], sentences);
      topics := topics + [line];
    }
    if n > 0 {
      lines := topics;
      assert lines == TopicsOf(keywords, sentences);
    } else {
      lines := [GeneralDiscussion];
    }
  }

  /** The body of the loop in `createTopics`, for one keyword: the `find`, then the two
      branches on the sentence found. */
  method TopicLine(keyword: string, sentences: seq<string>) returns (line: string)
    ensures line == Topic(keyword, sentences)
  {
    var found := FindMentioning(sentences, keyword);
    if found.Some? && sentences[found.value] != "" {
      var relevant := sentences[found.value];
      line := Capitalize(keyword) + ": " + Snippet(relevant);
    } else {
      line := DiscussionAbout + keyword;
    }
  }

  /** One line per keyword for the first five keywords, and the placeholder alone exactly when
      there are no keywords. */
  lemma TopicsCount(keywords: seq<string>, sentences: seq<string>)
    ensures var r := TopicsOf(keywords, sentences);
      && |r| == (if keywords == [] then 1 else Min(MaxTopics, |keywords|))
      && (keywords == [] ==> r == [GeneralDiscussion])
      && forall i :: 0 <= i < Min(MaxTopics, |keywords|) ==> r[i] == Topic(keywords[i], sentences)
  {
  }

  /** A topic line quotes the first sentence that mentions its keyword, cut to 100 characters;
      without such a sentence it only names the keyword. */
  lemma TopicQuotesFirstMention(keyword: string, sentences: seq<string>, i: nat)
    requires i < |sentences| && Mentions(sentences[i], keyword) && sentences[i] != ""
    requires forall k :: 0 <= k < i ==> !Mentions(sentences[k], keyword)
    ensures Topic(keyword, sentences) == Capitalize(keyword) + ": " + Snippet(sentences[i])
  {
    var f := FindMentioning(sentences, keyword);
    assert f.Some? && f.value == i;
  }

  lemma TopicWithoutMention(keyword: string, sentences: seq<string>)
    requires forall k :: 0 <= k < |sentences| ==> !Mentions(sentences[k], keyword)
    ensures Topic(keyword, sentences) == DiscussionAbout + keyword
  {
  }

  /** Every topic line contains its keyword, up to case. */
  lemma TopicMentionsKeyword(keyword: string, sentences: seq<string>)
    ensures Mentions(Topic(keyword, sentences), keyword)
  {
    var r := Topic(keyword, sentences);
    var low := Lower(keyword);
    var f := FindMentioning(sentences, keyword);
    if f.Some? && sentences[f.value] != "" {
      var rest := ": " + Snippet(sentences[f.value]);
      assert r == Capitalize(keyword) + rest;
      LowerAppend(Capitalize(keyword), rest);
      assert Lower(r)[0..|low|] == low;
      assert OccursAt(Lower(r), low, 0);
    } else {
      assert r == DiscussionAbout + keyword;
      LowerAppend(DiscussionAbout, keyword);
      var at := |DiscussionAbout|;
      assert Lower(r)[at..at + |low|] == low;
      assert OccursAt(Lower(r), low, at);
    }
  }
}
