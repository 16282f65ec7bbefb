/** Trigger-phrase extraction (`extractContent`, backend/services/huggingFaceService.js): the
    sentences that mention one of a list of phrases, without near-duplicates, at most five. */
module Content {
  import opened Text
  import opened Sorting

  /** At most this many sentences are collected. */
  const MaxItems: nat := 5

  /** Two sentences are near-duplicates when their first fifty characters agree up to case. */
  const KeyLength: nat := 50

  const DecisionTriggers: seq<string> := [
    "decide", "decided", "agree", "agreed", "approve", "approved",
    "confirm", "confirmed", "resolution", "conclude", "concluded",
    "finalize", "finalized", "commit", "committed"
  ]

  const ActionTriggers: seq<string> := [
    "will", "should", "must", "need to", "have to", "going to",
    "task", "action", "plan to", "responsible", "deadline",
    "assign", "complete", "finish", "deliver", "prepare"
  ]

  const NextStepTriggers: seq<string> := [
    "next", "following", "future", "upcoming", "schedule",
    "later", "soon", "tomorrow", "next week", "next month",
    "follow up", "continue", "revisit"
  ]

  /** `triggers.some(t => s.toLowerCase().includes(t.toLowerCase()))`. */
  predicate HasTrigger(s: string, triggers: seq<string>) {
    exists k | 0 <= k < |triggers| :: Contains(Lower(s), Lower(triggers[k]))
  }

  /** `s.substring(0, 50).toLowerCase()`. */
  function DedupKey(s: string): string {
    Lower(s[..Min(KeyLength, |s|)])
  }

  /** The keys of the sentences collected so far: the `seen` set. */
  function Keys(items: seq<string>): set<string> {
    set k | 0 <= k < |items| :: DedupKey(items[k])
  }

  /** What the loop has collected after the sentences `ss`, in order: once five are held nothing
      more is taken; otherwise a sentence with a trigger is taken unless its key was seen. */
  function Collect(ss: seq<string>, triggers: seq<string>): seq<string>
    decreases |ss|
  {
    if ss == [] then []
    else
      var prev := Collect(ss[..|ss| - 1], triggers);
      var s := ss[|ss| - 1];
      if |prev| >= MaxItems then prev
      else if HasTrigger(s, triggers) && DedupKey(s) !in Keys(prev) then prev + [s]
      else prev
  }

  /** `extractContent(sentences, triggers)`. */
  method ExtractContent(sentences: seq<string>, triggers: seq<string>) returns (matches: seq<string>)
    ensures matches == Collect(sentences, triggers)
  {
    matches := [];
    var seen: set<string> := {};
    var i := 0;
    while i < |sentences|
      invariant 0 <= i <= |sentences|
      invariant matches == Collect(sentences[..i], triggers)
      invariant seen == Keys(matches)
      invariant |matches| < MaxItems
    {
      var sentence := sentences[i];
      assert sentences[..i + 1][..i] == sentences[..i];
      if HasTrigger(sentence, triggers) {
        var normalized := Lower(sentence[..Min(KeyLength, |sentence|)]);
        if normalized !in seen {
          KeysAppend(matches, sentence);
          matches := matches + [sentence];
          seen := seen + {normalized};
        }
      }
      i := i + 1;
      if |matches| >= MaxItems {
        CollectSaturated(sentences, i, triggers);
        return;
      }
    }
    assert sentences[..i] == sentences;
  }

  lemma KeysAppend(items: seq<string>, s: string)
    ensures Keys(items + [s]) == Keys(items) + {DedupKey(s)}
  {
    var both := items + [s];
    assert forall k :: 0 <= k < |items| ==> both[k] == items[k];
    assert both[|items|] == s;
  }

  lemma {:induction false} CollectStep(ss: seq<string>, triggers: seq<string>)
    requires ss != []
    ensures var prev := Collect(ss[..|ss| - 1], triggers); var s := ss[|ss| - 1];
      Collect(ss, triggers) ==
        if |prev| >= MaxItems then prev
        else if HasTrigger(s, triggers) && DedupKey(s) !in Keys(prev) then prev + [s]
        else prev
  {
  }

  /** Once five sentences are held, the rest of the transcript changes nothing. */
  lemma {:induction false} CollectSaturated(ss: seq<string>, n: nat, triggers: seq<string>)
    requires n <= |ss| && |Collect(ss[..n], triggers)| >= MaxItems
    ensures Collect(ss, triggers) == Collect(ss[..n], triggers)
    decreases |ss| - n
  {
    if n < |ss| {
      var m := |ss| - 1;
      assert ss[..m][..n] == ss[..n];
      CollectSaturated(ss[..m], n, triggers);
      CollectStep(ss, triggers);
    } else {
      assert ss[..n] == ss;
    }
  }

  /** At most five sentences are collected, each a sentence of the input that mentions a
      trigger. */
  lemma {:induction false} CollectSound(ss: seq<string>, triggers: seq<string>)
    ensures var r := Collect(ss, triggers);
      && |r| <= MaxItems
      && forall k :: 0 <= k < |r| ==> r[k] in ss && HasTrigger(r[k], triggers)
    decreases |ss|
  {
    if ss != [] {
      var pre := ss[..|ss| - 1];
      CollectSound(pre, triggers);
      CollectStep(ss, triggers);
      assert forall x :: x in pre ==> x in ss;
    }
  }

  /** No two collected sentences are near-duplicates of each other. */
  lemma {:induction false} CollectDistinctKeys(ss: seq<string>, triggers: seq<string>)
    ensures var r := Collect(ss, triggers);
      forall i, j :: 0 <= i < j < |r| ==> DedupKey(r[i]) != DedupKey(r[j])
    decreases |ss|
  {
    if ss != [] {
      var prev := Collect(ss[..|ss| - 1], triggers);
      CollectDistinctKeys(ss[..|ss| - 1], triggers);
      CollectStep(ss, triggers);
    }
  }

  /** Unless five sentences are held, the key of every sentence with a trigger was seen. */
  lemma {:induction false} CollectCovers(ss: seq<string>, triggers: seq<string>)
    ensures var r := Collect(ss, triggers);
      |r| >= MaxItems
      || forall k :: 0 <= k < |ss| && HasTrigger(ss[k], triggers) ==> DedupKey(ss[k]) in Keys(r)
    decreases |ss|
  {
    if ss != [] {
      var pre := ss[..|ss| - 1];
      var s := ss[|ss| - 1];
      var prev := Collect(pre, triggers);
      CollectCovers(pre, triggers);
      CollectStep(ss, triggers);
      if |prev| < MaxItems {
        assert forall k :: 0 <= k < |pre| ==> ss[k] == pre[k];
        if HasTrigger(s, triggers) && DedupKey(s) !in Keys(prev) {
          KeysAppend(prev, s);
        }
      }
    }
  }

  /** What is collected from the first `m` sentences stays, unchanged, at the front of what is
      collected from all of them. */
  lemma {:induction false} CollectPrefix(ss: seq<string>, m: nat, triggers: seq<string>)
    requires m <= |ss|
    ensures var p := Collect(ss[..m], triggers); var r := Collect(ss, triggers);
      |p| <= |r| && r[..|p|] == p
    decreases |ss| - m
  {
    if m < |ss| {
      var pre := ss[..|ss| - 1];
      assert pre[..m] == ss[..m];
      CollectPrefix(pre, m, triggers);
      CollectStep(ss, triggers);
    } else {
      assert ss[..m] == ss;
    }
  }

  /** The decision on the sentence at position `k`, when fewer than five are held before it and it
      mentions a trigger: it is taken, right after what was collected before it, unless one of
      those earlier sentences has the same key. */
  lemma CollectDecides(ss: seq<string>, k: nat, triggers: seq<string>)
    requires k < |ss| && HasTrigger(ss[k], triggers)
    requires |Collect(ss[..k], triggers)| < MaxItems
    ensures var prev := Collect(ss[..k], triggers); var r := Collect(ss, triggers);
      && |prev| <= |r| && r[..|prev|] == prev
      && (DedupKey(ss[k]) !in Keys(prev) ==> |prev| < |r| && r[|prev|] == ss[k])
      && (DedupKey(ss[k]) in Keys(prev) ==> exists j :: 0 <= j < |prev| && DedupKey(r[j]) == DedupKey(ss[k]))
  {
    var prev := Collect(ss[..k], triggers);
    var r := Collect(ss, triggers);
    assert ss[..k + 1][..k] == ss[..k] && ss[..k + 1][k] == ss[k];
    CollectStep(ss[..k + 1], triggers);
    CollectPrefix(ss, k + 1, triggers);
    CollectPrefix(ss, k, triggers);
    var next := Collect(ss[..k + 1], triggers);
    if DedupKey(ss[k]) !in Keys(prev) {
      assert next == prev + [ss[k]];
      assert r[..|next|][|prev|] == ss[k];
    } else {
      var j :| 0 <= j < |prev| && DedupKey(prev[j]) == DedupKey(ss[k]);
      assert r[..|prev|][j] == prev[j];
    }
  }

  /** The collected sentences keep transcript order: each is the first occurrence of itself, and
      of two collected sentences the earlier one occurs earlier. */
  lemma {:induction false} CollectOrder(ss: seq<string>, triggers: seq<string>)
    ensures var r := Collect(ss, triggers);
      forall i, j :: 0 <= i < j < |r| ==>
        r[i] in ss && r[j] in ss && IndexOf(ss, r[i]) < IndexOf(ss, r[j])
    decreases |ss|
  {
    CollectSound(ss, triggers);
    if ss != [] {
      var pre := ss[..|ss| - 1];
      var s := ss[|ss| - 1];
      var prev := Collect(pre, triggers);
      var r := Collect(ss, triggers);
      assert ss == pre + [s];
      CollectOrder(pre, triggers);
      CollectStep(ss, triggers);
      forall x | x in pre ensures IndexOf(ss, x) == IndexOf(pre, x) {
        IndexOfAppend(pre, s, x);
      }
      if |prev| < MaxItems && HasTrigger(s, triggers) && DedupKey(s) !in Keys(prev) {
        CollectedIsNew(pre, s, triggers);
        CollectSound(pre, triggers);
        IndexOfLast(pre, s);
        assert r == prev + [s];
        forall i, j | 0 <= i < j < |r|
          ensures r[i] in ss && r[j] in ss && IndexOf(ss, r[i]) < IndexOf(ss, r[j])
        {
          if j == |prev| {
            assert r[i] == prev[i] && prev[i] in pre;
          } else {
            assert r[i] == prev[i] && r[j] == prev[j];
          }
        }
      }
    }
  }

  /** A sentence the loop takes did not occur before: an earlier copy would have been taken or
      would have had its key seen. */
  lemma CollectedIsNew(pre: seq<string>, s: string, triggers: seq<string>)
    requires |Collect(pre, triggers)| < MaxItems && HasTrigger(s, triggers)
    requires DedupKey(s) !in Keys(Collect(pre, triggers))
    ensures s !in pre
  {
    CollectCovers(pre, triggers);
  }

  /** Nothing is collected exactly when no sentence mentions a trigger. */
  lemma CollectEmpty(ss: seq<string>, triggers: seq<string>)
    ensures Collect(ss, triggers) == [] <==> forall k :: 0 <= k < |ss| ==> !HasTrigger(ss[k], triggers)
  {
    CollectCovers(ss, triggers);
    CollectSound(ss, triggers);
    var r := Collect(ss, triggers);
    if r != [] {
      var k := IndexOf(ss, r[0]);
      assert HasTrigger(ss[k], triggers);
    }
  }
}
