/** The summarizer service (`createSmartSummary`, `createBasicSummary` and `generateSummary`,
    backend/services/huggingFaceService.js): the structured summary record of a transcript. */
module Summarizer {
  import opened Text
  import opened Sentences
  import opened Keywords
  import opened Content
  import opened Topics
  import opened Overview

  /** The record both summary builders return. */
  datatype Summary = Summary(
    overview: string,
    keyDecisions: seq<string>,
    actionItems: seq<string>,
    discussionTopics: seq<string>,
    nextSteps: seq<string>)

  const NoDecisions: string := "No specific decisions identified in this meeting"
  const NoActionItems: string := "No action items identified - review transcript for details"
  const NoNextSteps: string := "No next steps specified - see full transcript"
  const Unanalyzed: string := "Unable to analyze - see full transcript"
  const NoTranscript: string := "No transcript available."

  /** The basic overview quotes at most this many characters of the transcript. */
  const PreviewLength: nat := 200

  /** `items.length > 0 ? items : [placeholder]`. */
  function OrPlaceholder(items: seq<string>, placeholder: string): seq<string> {
    if |items| > 0 then items else [placeholder]
  }

  /** The record `createSmartSummary` assembles from the sentences, the word count and the
      keywords of a transcript. */
  function Assemble(sentences: seq<string>, wordCount: nat, keywords: seq<string>): Summary {
    Summary(
      GenerateOverview(sentences, wordCount, keywords),
      OrPlaceholder(Collect(sentences, DecisionTriggers), NoDecisions),
      OrPlaceholder(Collect(sentences, ActionTriggers), NoActionItems),
      TopicsOf(keywords, sentences),
      OrPlaceholder(Collect(sentences, NextStepTriggers), NoNextSteps))
  }

  /** The record `createSmartSummary` returns for a transcript. */
  function SmartSummary(transcript: string): Summary {
    Assemble(Segment(transcript), WordCount(transcript), KeywordsOf(transcript))
  }

  /** `createSmartSummary(transcript)`. */
  method CreateSmartSummary(transcript: string) returns (summary: Summary)
    ensures summary == SmartSummary(transcript)
  {
    var sentences := Segment(transcript);
    var keywords := ExtractKeywords(transcript);
    var wordCount := WordCount(transcript);
    var overview := GenerateOverview(sentences, wordCount, keywords);
    var keyDecisions := ExtractContent(sentences, DecisionTriggers);
    var actionItems := ExtractContent(sentences, ActionTriggers);
    var discussionTopics := CreateTopics(keywords, sentences);
    var nextSteps := ExtractContent(sentences, NextStepTriggers);
    summary := Summary(
      overview,
      if |keyDecisions| > 0 then keyDecisions else [NoDecisions],
      if |actionItems| > 0 then actionItems else [NoActionItems],
      discussionTopics,
      if |nextSteps| > 0 then nextSteps else [NoNextSteps]);
  }

  /** `createBasicSummary(transcript)`: the start of the transcript and a placeholder in every
      list. An empty transcript is falsy and gets its own placeholder. */
  function BasicSummary(transcript: string): Summary {
    var overview :=
      if |transcript| > PreviewLength then transcript[..PreviewLength] + "..."
      else if transcript == "" then NoTranscript
      else transcript;
    Summary(overview, [Unanalyzed], [Unanalyzed], [Unanalyzed], [Unanalyzed])
  }

  /** `generateSummary(transcript)`. Whether `createSmartSummary` raised is not visible in this
      model, so it is a parameter: when it raised, the result is the basic summary. For a
      transcript that is null or not a string the basic path raises as well; such inputs are
      outside this model, which does not claim the fallback succeeds for them. */
  function SelectSummary(transcript: string, smartRaised: bool): Summary {
    if smartRaised then BasicSummary(transcript) else SmartSummary(transcript)
  }

  /** The shape every summary has: a non-empty overview and between one and five entries in each
      list. */
  predicate WellFormed(s: Summary) {
    && s.overview != ""
    && 1 <= |s.keyDecisions| <= MaxItems
    && 1 <= |s.actionItems| <= MaxItems
    && 1 <= |s.discussionTopics| <= MaxTopics
    && 1 <= |s.nextSteps| <= MaxItems
  }

  /** A list of the smart summary is its placeholder alone when no sentence mentions one of its
      trigger phrases, and otherwise the sentences `Collect` takes: at most five, each a sentence
      of the transcript that mentions a trigger, no two alike in their first fifty characters. */
  lemma {:induction false} ListOrPlaceholder(sentences: seq<string>, triggers: seq<string>, placeholder: string)
    ensures var r := OrPlaceholder(Collect(sentences, triggers), placeholder);
      && 1 <= |r| <= MaxItems
      && ((forall k :: 0 <= k < |sentences| ==> !HasTrigger(sentences[k], triggers)) ==> r == [placeholder])
      && ((exists k :: 0 <= k < |sentences| && HasTrigger(sentences[k], triggers)) ==>
            && (forall i :: 0 <= i < |r| ==> r[i] in sentences && HasTrigger(r[i], triggers))
            && (forall i, j :: 0 <= i < j < |r| ==> DedupKey(r[i]) != DedupKey(r[j])))
      && (!HasTrigger(placeholder, triggers) ==>
            (r == [placeholder] <==> forall k :: 0 <= k < |sentences| ==> !HasTrigger(sentences[k], triggers)))
  {
    CollectSound(sentences, triggers);
    CollectEmpty(sentences, triggers);
    CollectDistinctKeys(sentences, triggers);
    var c := Collect(sentences, triggers);
    if c != [] {
      assert HasTrigger(c[0], triggers);
    }
  }

  /** Whatever the sentences, the word count and the keywords, the assembled record is well
      formed; its overview is the no-content placeholder exactly when there is no sentence. */
  lemma AssembleWellFormed(sentences: seq<string>, wordCount: nat, keywords: seq<string>)
    ensures WellFormed(Assemble(sentences, wordCount, keywords))
    ensures Assemble(sentences, wordCount, keywords).overview == NoContent <==> sentences == []
  {
    var s := Assemble(sentences, wordCount, keywords);
    assert 1 <= |s.keyDecisions| <= MaxItems by {
      CollectSound(sentences, DecisionTriggers);
    }
    assert 1 <= |s.actionItems| <= MaxItems by {
      CollectSound(sentences, ActionTriggers);
    }
    assert 1 <= |s.nextSteps| <= MaxItems by {
      CollectSound(sentences, NextStepTriggers);
    }
    assert 1 <= |s.discussionTopics| <= MaxTopics by {
      TopicsCount(keywords, sentences);
    }
    OverviewPlaceholder(sentences, wordCount, keywords);
  }

  /** Every summary `createSmartSummary` builds is well formed; its overview is the
      no-content placeholder exactly when the transcript has no sentence. */
  lemma SmartSummaryWellFormed(transcript: string)
    ensures WellFormed(SmartSummary(transcript))
    ensures SmartSummary(transcript).overview == NoContent <==> Segment(transcript) == []
  {
    AssembleWellFormed(Segment(transcript), WordCount(transcript), KeywordsOf(transcript));
  }

  /** The basic summary quotes the transcript, cut to 200 characters and marked with `...`, and
      puts the analysis placeholder in every list. */
  lemma BasicSummaryShape(transcript: string)
    ensures var s := BasicSummary(transcript);
      && WellFormed(s)
      && |s.overview| <= PreviewLength + 3
      && (transcript != "" ==> s.overview[..Min(|transcript|, PreviewLength)]
                               == transcript[..Min(|transcript|, PreviewLength)])
      && (transcript == "" ==> s.overview == NoTranscript)
      && (0 < |transcript| <= PreviewLength ==> s.overview == transcript)
      && (|transcript| > PreviewLength ==> |s.overview| == PreviewLength + 3 && s.overview[PreviewLength..] == "...")
      && s.keyDecisions == s.actionItems == s.discussionTopics == s.nextSteps == [Unanalyzed]
  {
    var s := BasicSummary(transcript);
    if |transcript| > PreviewLength {
      assert s.overview[..PreviewLength] == transcript[..PreviewLength];
    } else if transcript != "" {
      assert s.overview == transcript;
    }
  }

  /** Whichever path produces it, the summary `generateSummary` returns is well formed. */
  lemma SelectSummaryWellFormed(transcript: string, smartRaised: bool)
    ensures WellFormed(SelectSummary(transcript, smartRaised))
  {
    if smartRaised {
      BasicSummaryShape(transcript);
    } else {
      SmartSummaryWellFormed(transcript);
    }
  }
}
