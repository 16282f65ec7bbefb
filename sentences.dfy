/** Sentence segmentation and the word count of a transcript
    (`createSmartSummary`, backend/services/huggingFaceService.js). */
module Sentences {
  import opened Text

  /** Trimmed pieces must be longer than this to count as sentences. */
  const MinSentenceLength: nat := 20

  /** `.map(s => s.trim()).filter(s => s.length > 20)`. */
  function KeepLong(pieces: seq<string>): (r: seq<string>)
    ensures |r| <= |pieces|
    ensures forall k :: 0 <= k < |r| ==> |r[k]| > MinSentenceLength && IsTrimmed(r[k])
  {
    if pieces == [] then []
    else
      var s := Trim(pieces[0]);
      (if |s| > MinSentenceLength then [s] else []) + KeepLong(pieces[1..])
  }

  /** The sentences of a transcript: the pieces between runs of `.`, `!` and `?`, trimmed, of
      which those longer than 20 characters are kept in order. */
  function Segment(transcript: string): seq<string> {
    KeepLong(Split(transcript, IsTerminator))
  }

  /** `transcript.split(/\s+/).length`: one more than the number of white-space runs, so the
      empty transcript counts one word and leading or trailing white space adds an empty piece. */
  function WordCount(transcript: string): (n: nat)
    ensures n == RunStarts(transcript, IsSpace, false) + 1
  {
    SplitCount(transcript, IsSpace);
    |Split(transcript, IsSpace)|
  }

  /** Every sentence is longer than 20 characters, has no white space at either end and contains
      no terminator. */
  lemma {:induction false} SegmentShape(transcript: string)
    ensures forall k :: 0 <= k < |Segment(transcript)| ==>
      |Segment(transcript)[k]| > MinSentenceLength && IsTrimmed(Segment(transcript)[k])
      && NoSep(Segment(transcript)[k], IsTerminator)
  {
    KeepLongNoSep(Split(transcript, IsTerminator));
  }

  lemma {:induction false} KeepLongNoSep(pieces: seq<string>)
    requires forall k :: 0 <= k < |pieces| ==> NoSep(pieces[k], IsTerminator)
    ensures forall k :: 0 <= k < |KeepLong(pieces)| ==> NoSep(KeepLong(pieces)[k], IsTerminator)
  {
    if pieces != [] {
      TrimKeepsNoSep(pieces[0], IsTerminator);
      KeepLongNoSep(pieces[1..]);
    }
  }

  lemma {:induction false} KeepLongCons(p: string, rest: seq<string>)
    ensures KeepLong([p] + rest)
         == (if |Trim(p)| > MinSentenceLength then [Trim(p)] else []) + KeepLong(rest)
  {
    assert ([p] + rest)[0] == p && ([p] + rest)[1..] == rest;
  }

  lemma KeepLongFront(p: string, rest: seq<string>)
    ensures KeepLong([p] + rest) == KeepLong([p]) + KeepLong(rest)
  {
    KeepLongCons(p, rest);
    KeepLongSingle(p);
  }

  /** Every piece is judged on its own and kept in place: the sentences of two lists of pieces are
      those of the first followed by those of the second. */
  lemma {:induction false} KeepLongAppend(a: seq<string>, b: seq<string>)
    ensures KeepLong(a + b) == KeepLong(a) + KeepLong(b)
    decreases |a|
  {
    if a == [] {
      assert a + b == b;
    } else {
      var head := KeepLong([a[0]]);
      var tail := a[1..];
      assert KeepLong(a + b) == head + KeepLong(tail + b) by {
        assert a + b == [a[0]] + (tail + b);
        KeepLongFront(a[0], tail + b);
      }
      assert KeepLong(a) == head + KeepLong(tail) by {
        assert a == [a[0]] + tail;
        KeepLongFront(a[0], tail);
      }
      KeepLongAppend(tail, b);
      Associative(head, KeepLong(tail), KeepLong(b));
    }
  }

  /** A string that starts with a terminator has the sentences of its remainder after the run. */
  lemma {:induction false} SegmentSkipSeps(x: string)
    ensures Segment(SkipSeps(x, IsTerminator)) == Segment(x)
  {
    if x != [] && IsTerminator(x[0]) {
      assert FirstSep(x, IsTerminator) == 0;
      assert Split(x, IsTerminator) == [x[..0]] + Split(SkipSeps(x[0..], IsTerminator), IsTerminator);
      assert x[0..] == x && x[..0] == "";
      KeepLongCons("", Split(SkipSeps(x, IsTerminator), IsTerminator));
    }
  }

  lemma {:induction false} SplitStep(s: string)
    requires FirstSep(s, IsTerminator) < |s|
    ensures var i := FirstSep(s, IsTerminator);
      Split(s, IsTerminator) == [s[..i]] + Split(SkipSeps(s[i..], IsTerminator), IsTerminator)
  {
  }

  /** One step of the split, seen through `Segment`. */
  lemma {:induction false} SegmentStep(s: string)
    requires FirstSep(s, IsTerminator) < |s|
    ensures var i := FirstSep(s, IsTerminator);
      Segment(s) == KeepLong([s[..i]]) + Segment(SkipSeps(s[i..], IsTerminator))
  {
    var i := FirstSep(s, IsTerminator);
    var rest := SkipSeps(s[i..], IsTerminator);
    SplitStep(s);
    assert Segment(s) == KeepLong([s[..i]] + Split(rest, IsTerminator));
    KeepLongCons(s[..i], Split(rest, IsTerminator));
    KeepLongSingle(s[..i]);
    assert Segment(rest) == KeepLong(Split(rest, IsTerminator));
  }

  lemma {:induction false} KeepLongSingle(p: string)
    ensures KeepLong([p]) == (if |Trim(p)| > MinSentenceLength then [Trim(p)] else [])
  {
    KeepLongCons(p, []);
    assert [p] + [] == [p];
  }

  /** A transcript without a terminator has at most one sentence: itself, trimmed. */
  lemma {:induction false} SegmentNoTerminator(s: string)
    requires FirstSep(s, IsTerminator) == |s|
    ensures Segment(s) == KeepLong([s])
  {
    assert Split(s, IsTerminator) == [s];
  }

  lemma {:induction false} SegmentEmpty()
    ensures Segment("") == []
  {
    SplitNoSep("", IsTerminator);
    KeepLongSingle("");
  }

  /** `[c] + b` for a terminator `c` has the sentences of `b`. */
  lemma {:induction false} SegmentAfterTerminator(c: char, b: string)
    requires IsTerminator(c)
    ensures Segment(SkipSeps([c] + b, IsTerminator)) == Segment(b)
  {
    assert ([c] + b)[1..] == b;
    assert SkipSeps([c] + b, IsTerminator) == SkipSeps(b, IsTerminator);
    SegmentSkipSeps(b);
  }

  lemma {:induction false} FirstSepAppend(a: string, c: char, b: string)
    requires IsTerminator(c)
    ensures var i := FirstSep(a, IsTerminator);
      FirstSep(a + [c] + b, IsTerminator) == i
      && (a + [c] + b)[..i] == a[..i]
      && (a + [c] + b)[i..] == a[i..] + ([c] + b)
  {
    var s := a + [c] + b;
    var i := FirstSep(a, IsTerminator);
    assert forall k :: 0 <= k < |a| ==> s[k] == a[k];
    assert s[|a|] == c;
  }

  /** The case of `SegmentAppend` where `a` holds no terminator. */
  lemma {:induction false} SegmentAppendLast(a: string, c: char, b: string)
    requires IsTerminator(c) && FirstSep(a, IsTerminator) == |a|
    ensures Segment(a + [c] + b) == Segment(a) + Segment(b)
  {
    var s := a + [c] + b;
    var rest := SkipSeps([c] + b, IsTerminator);
    assert FirstSep(s, IsTerminator) == |a| && s[..|a|] == a && s[|a|..] == [c] + b by {
      FirstSepAppend(a, c, b);
      assert a[..|a|] == a && a[|a|..] == [];
    }
    assert Segment(s) == KeepLong([a]) + Segment(rest) by {
      SegmentStep(s);
    }
    assert Segment(rest) == Segment(b) by {
      SegmentAfterTerminator(c, b);
    }
    SegmentNoTerminator(a);
  }

  /** Sentences keep transcript order: cutting a transcript at a terminator splits its sentence
      list into the sentences of the part before and those of the part after. */
  lemma {:induction false} SegmentAppend(a: string, c: char, b: string)
    requires IsTerminator(c)
    ensures Segment(a + [c] + b) == Segment(a) + Segment(b)
    decreases |a|
  {
    var i := FirstSep(a, IsTerminator);
    if i == |a| {
      SegmentAppendLast(a, c, b);
    } else {
      var s := a + [c] + b;
      var first := KeepLong([a[..i]]);
      var restA := SkipSeps(a[i..], IsTerminator);
      var restS := SkipSeps(s[i..], IsTerminator);
      FirstSepAppend(a, c, b);
      SegmentStep(a);
      SegmentStep(s);
      assert Segment(a) == first + Segment(restA);
      assert Segment(s) == first + Segment(restS);
      if restA == [] {
        SkipSepsAllSep(a[i..], [c] + b, IsTerminator);
        assert restS == SkipSeps([c] + b, IsTerminator);
        SegmentAfterTerminator(c, b);
        SegmentEmpty();
        assert Segment(a) == first + [];
      } else {
        SkipSepsAppend(a[i..], [c] + b, IsTerminator);
        assert restS == restA + ([c] + b);
        Associative(restA, [c], b);
        SegmentAppend(restA, c, b);
        Associative(first, Segment(restA), Segment(b));
      }
    }
  }
}
