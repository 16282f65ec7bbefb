/** Keyword extraction (`extractKeywords`, backend/services/huggingFaceService.js): the
    lower-cased words of the transcript, counted in a frequency table, ranked by descending count
    and cut to the first fifteen. */
module Keywords {
  import opened Text
  import opened Sorting

  /** The fixed stop words, in the order the source lists them. */
  const StopWords: seq<string> :=
    ["the", "is", "at", "which", "on", "a", "an", "and", "or", "but"] +
    ["in", "with", "to", "for", "of", "as", "by", "this", "that", "it"] +
    ["are", "was", "were", "been", "be", "have", "has", "had", "do", "does"] +
    ["did", "will", "would", "could", "should", "may", "might", "can", "said", "say"] +
    ["also", "than", "them", "then", "these", "those", "very", "some", "such", "just"] +
    ["about", "into", "through"]

  const MaxKeywords: nat := 15

  /** `stopWords.has(w)`: a search through the list. */
  predicate Listed(w: string, ws: seq<string>)
    decreases |ws|
  {
    ws != [] && (ws[0] == w || Listed(w, ws[1..]))
  }

  lemma {:induction false} ListedIsMembership(w: string, ws: seq<string>)
    ensures Listed(w, ws) <==> w in ws
    decreases |ws|
  {
    if ws != [] {
      ListedIsMembership(w, ws[1..]);
      assert ws == [ws[0]] + ws[1..];
    }
  }

  /** A word the frequency table counts: longer than four characters and not a stop word. */
  predicate Counted(w: string) { |w| > 4 && !Listed(w, StopWords) }

  lemma StopWordsShort()
    ensures forall k :: 0 <= k < |StopWords| ==> |StopWords[k]| <= 7
  {
  }

  /** No stop word is longer than seven characters, so every longer word is counted. */
  lemma LongWordCounted(w: string)
    requires |w| > 7
    ensures Counted(w)
  {
    StopWordsShort();
    ListedIsMembership(w, StopWords);
  }

  predicate IsLowerWordChar(c: char) { IsWordChar(c) && !IsUpper(c) }

  /** Every character is a word character and none is a capital letter. */
  predicate IsLowerWord(w: string) { forall k :: 0 <= k < |w| ==> IsLowerWordChar(w[k]) }

  /** `text.toLowerCase().split(/\W+/)`. */
  function Words(text: string): (ws: seq<string>)
    ensures forall k :: 0 <= k < |ws| ==> IsLowerWord(ws[k])
  {
    var lower := Lower(text);
    SplitKeepsChars(lower, IsNonWordChar, IsLowerWordChar);
    Split(lower, IsNonWordChar)
  }

  /** A run of word characters is one word, lower-cased. */
  lemma WordsOfWord(w: string)
    requires forall k :: 0 <= k < |w| ==> IsWordChar(w[k])
    ensures Words(w) == [Lower(w)]
  {
    SplitNoSep(Lower(w), IsNonWordChar);
  }

  /** Where the words are cut: a maximal run of non-word characters between `a` and `b` separates
      the words of `a` from those of `b`. */
  lemma WordsCut(a: string, run: string, b: string)
    requires |run| > 0 && forall k :: 0 <= k < |run| ==> IsNonWordChar(run[k])
    requires a == [] || IsWordChar(a[|a| - 1])
    requires b == [] || IsWordChar(b[0])
    ensures Words(a + run + b) == Words(a) + Words(b)
  {
    LowerAppend(a + run, b);
    LowerAppend(a, run);
    SplitCut(Lower(a), Lower(run), Lower(b), IsNonWordChar);
  }

  /** How often `w` occurs among the words of `text`. */
  function Freq(text: string, w: string): nat { multiset(Words(text))[w] }

  lemma {:induction false} SplitKeepsChars(s: string, sep: char -> bool, p: char -> bool)
    requires forall k :: 0 <= k < |s| ==> p(s[k]) || sep(s[k])
    ensures forall k, j :: 0 <= k < |Split(s, sep)| && 0 <= j < |Split(s, sep)[k]| ==> p(Split(s, sep)[k][j])
    decreases |s|
  {
    var i := FirstSep(s, sep);
    if i < |s| {
      var rest := SkipSeps(s[i..], sep);
      var n := |s| - |rest|;
      assert forall k :: 0 <= k < |rest| ==> rest[k] == s[n + k];
      SplitKeepsChars(rest, sep, p);
      assert Split(s, sep) == [s[..i]] + Split(rest, sep);
    }
  }

  // ---------------------------------------------------------------------------------------------
  // The frequency table `wordFreq`: a plain object whose own properties are the counted words,
  // in insertion order, each holding its count.

  datatype FreqTable = FreqTable(order: seq<string>, counts: map<string, nat>)
  {
    /** The insertion order lists every key exactly once. */
    ghost predicate Valid() {
      && Distinct(order)
      && (forall k :: 0 <= k < |order| ==> order[k] in counts)
      && (forall w :: w in counts ==> w in order)
    }
  }

  /** The table after `word` has been seen once more (`forEach` body). */
  function Bump(t: FreqTable, word: string): FreqTable {
    if !Counted(word) then t
    else if word in t.counts then FreqTable(t.order, t.counts[word := t.counts[word] + 1])
    else FreqTable(t.order + [word], t.counts[word := 1])
  }

  /** The table after all of `words`, in order. */
  function Tally(words: seq<string>): FreqTable
    decreases |words|
  {
    if words == [] then FreqTable([], map[])
    else Bump(Tally(words[..|words| - 1]), words[|words| - 1])
  }

  /** The counting loop, updating the dictionary in place word by word. */
  method CountWords(words: seq<string>) returns (table: FreqTable)
    ensures table == Tally(words)
  {
    var order: seq<string> := [];
    var counts: map<string, nat> := map[];
    var i := 0;
    while i < |words|
      invariant 0 <= i <= |words|
      invariant FreqTable(order, counts) == Tally(words[..i])
    {
      var word := words[i];
      if |word| > 4 && !Listed(word, StopWords) {
        if word in counts {
          counts := counts[word := counts[word] + 1];
        } else {
          order := order + [word];
          counts := counts[word := 1];
        }
      }
      assert words[..i + 1][..i] == words[..i];
      i := i + 1;
    }
    assert words[..|words|] == words;
    table := FreqTable(order, counts);
  }

  /** The table holds exactly the counted words, each with its number of occurrences. */
  lemma {:induction false} TallyCounts(words: seq<string>)
    ensures Tally(words).Valid()
    ensures forall w :: w in Tally(words).counts <==> w in words && Counted(w)
    ensures forall w :: w in Tally(words).counts ==> Tally(words).counts[w] == multiset(words)[w]
    decreases |words|
  {
    if words != [] {
      var pre := words[..|words| - 1];
      var w := words[|words| - 1];
      assert words == pre + [w];
      TallyCounts(pre);
      var t := Tally(pre);
      if Counted(w) && w !in t.counts {
        forall i | 0 <= i < |t.order| ensures t.order[i] != w {
          assert t.order[i] in t.counts;
        }
      }
    }
  }

  /** The table lists its words in the order of their first occurrence. */
  lemma {:induction false} TallyOrder(words: seq<string>)
    ensures forall i, j :: 0 <= i < j < |Tally(words).order| ==>
      var o := Tally(words).order;
      o[i] in words && o[j] in words && IndexOf(words, o[i]) < IndexOf(words, o[j])
    decreases |words|
  {
    if words != [] {
      var pre := words[..|words| - 1];
      var w := words[|words| - 1];
      assert words == pre + [w];
      TallyOrder(pre);
      var t := Tally(pre);
      var o := Tally(words).order;
      forall x | x in pre ensures x in words && IndexOf(words, x) == IndexOf(pre, x) {
        IndexOfAppend(pre, w, x);
      }
      if Counted(w) && w !in t.counts {
        assert o == t.order + [w];
        assert w !in pre by {
          TallyCounts(pre);
        }
        IndexOfLast(pre, w);
        assert forall i :: 0 <= i < |t.order| ==> t.order[i] in pre by {
          TallyCounts(pre);
        }
      } else {
        assert o == t.order;
      }
      forall i, j | 0 <= i < j < |o|
        ensures o[i] in words && o[j] in words && IndexOf(words, o[i]) < IndexOf(words, o[j])
      {
        assert o[i] == t.order[i];
        if j < |t.order| {
          assert o[j] == t.order[j];
        }
      }
    }
  }

  // ---------------------------------------------------------------------------------------------
  // `Object.entries(wordFreq)`: keys that are canonical array indices come first, in ascending
  // numeric order; the other keys follow in insertion order.

  /** A canonical array index: decimal digits without a leading zero, value below 2^32 - 1. */
  predicate IsIndexKey(w: string) {
    IsCanonicalNumeral(w) && ParseNat(w) < 0xFFFF_FFFF
  }

  predicate IsNamedKey(w: string) { !IsIndexKey(w) }

  /** Sort key putting index keys in ascending numeric order under a descending sort. */
  function IndexRank(w: string): int { 0 - ParseNat(w) as int }

  function EntryOrder(order: seq<string>): seq<string> {
    SortDesc(Filter(order, IsIndexKey), IndexRank) + Filter(order, IsNamedKey)
  }

  /** The count the table holds for a word (`entry[1]`). */
  function CountOf(t: FreqTable): string -> int {
    w => if w in t.counts then t.counts[w] else 0
  }

  /** `Object.entries(wordFreq).sort((a, b) => b[1] - a[1])`, keeping the words. */
  function Ranked(t: FreqTable): seq<string> {
    SortDesc(EntryOrder(t.order), CountOf(t))
  }

  /** The keywords of a transcript: `.slice(0, 15).map(([word]) => word)` of the ranking. */
  function KeywordsOf(text: string): seq<string> {
    var ranked := Ranked(Tally(Words(text)));
    ranked[..Min(MaxKeywords, |ranked|)]
  }

  /** `extractKeywords`. */
  method ExtractKeywords(text: string) returns (keywords: seq<string>)
    ensures keywords == KeywordsOf(text)
  {
    var words := Words(text);
    var table := CountWords(words);
    var ranked := SortDesc(EntryOrder(table.order), CountOf(table));
    keywords := ranked[..Min(MaxKeywords, |ranked|)];
  }

  // ---------------------------------------------------------------------------------------------
  // Properties of the ranking

  lemma {:induction false} FilterPartition(s: seq<string>)
    ensures multiset(Filter(s, IsIndexKey)) + multiset(Filter(s, IsNamedKey)) == multiset(s)
  {
    if s != [] {
      FilterPartition(s[1..]);
      assert s == [s[0]] + s[1..];
    }
  }

  /** The entries are the table's keys, each once. */
  lemma {:induction false} EntryOrderPermutes(order: seq<string>)
    ensures multiset(EntryOrder(order)) == multiset(order)
  {
    FilterPartition(order);
  }

  lemma {:induction false} RankedFacts(words: seq<string>)
    ensures var t := Tally(words); var r := Ranked(t);
      && multiset(r) == multiset(t.order)
      && Distinct(r)
      && NonIncreasing(r, CountOf(t))
  {
    var t := Tally(words);
    TallyCounts(words);
    EntryOrderPermutes(t.order);
    PermutationDistinct(t.order, Ranked(t));
  }

  lemma {:induction false} MultisetIn(s: seq<string>, u: seq<string>, x: string)
    requires multiset(s) == multiset(u)
    ensures x in s <==> x in u
  {
    assert x in s <==> x in multiset(s);
    assert x in u <==> x in multiset(u);
  }

  /** A ranked word is a counted word, ranked with its number of occurrences. */
  lemma {:induction false} RankedMember(words: seq<string>, x: string)
    requires x in Ranked(Tally(words))
    ensures x in words && Counted(x)
    ensures CountOf(Tally(words))(x) == multiset(words)[x]
  {
    var t := Tally(words);
    RankedFacts(words);
    TallyCounts(words);
    MultisetIn(Ranked(t), t.order, x);
    assert x in t.counts;
  }

  /** At most fifteen keywords, no repetitions; each is a lower-case word of the transcript that
      is longer than four characters and not a stop word. */
  lemma {:induction false} KeywordsAreCountedWords(text: string)
    ensures var r := KeywordsOf(text);
      && |r| <= MaxKeywords
      && Distinct(r)
      && forall k :: 0 <= k < |r| ==> r[k] in Words(text) && Counted(r[k]) && IsLowerWord(r[k])
  {
    var words := Words(text);
    var ranked := Ranked(Tally(words));
    var r := KeywordsOf(text);
    assert r == ranked[..Min(MaxKeywords, |ranked|)];
    RankedFacts(words);
    forall k | 0 <= k < |r| ensures r[k] in words && Counted(r[k]) && IsLowerWord(r[k]) {
      assert r[k] == ranked[k];
      RankedMember(words, r[k]);
    }
  }

  /** Keywords come in order of non-increasing frequency. */
  lemma {:induction false} KeywordsByFrequency(text: string)
    ensures var r := KeywordsOf(text);
      forall i, j :: 0 <= i < j < |r| ==> Freq(text, r[i]) >= Freq(text, r[j])
  {
    var words := Words(text);
    var t := Tally(words);
    var ranked := Ranked(t);
    var r := KeywordsOf(text);
    assert r == ranked[..Min(MaxKeywords, |ranked|)];
    RankedFacts(words);
    forall i, j | 0 <= i < j < |r| ensures Freq(text, r[i]) >= Freq(text, r[j]) {
      assert r[i] == ranked[i] && r[j] == ranked[j];
      RankedMember(words, r[i]);
      RankedMember(words, r[j]);
      assert CountOf(t)(r[i]) >= CountOf(t)(r[j]);
    }
  }

  /** The keywords are the most frequent counted words: a counted word left out means the list is
      full and the word is no more frequent than the last keyword. */
  lemma {:induction false} KeywordsAreTop(text: string, w: string)
    requires w in Words(text) && Counted(w) && w !in KeywordsOf(text)
    ensures |KeywordsOf(text)| == MaxKeywords
    ensures Freq(text, w) <= Freq(text, KeywordsOf(text)[MaxKeywords - 1])
  {
    var words := Words(text);
    var t := Tally(words);
    var ranked := Ranked(t);
    var r := KeywordsOf(text);
    assert r == ranked[..Min(MaxKeywords, |ranked|)];
    assert w in ranked by {
      TallyCounts(words);
      RankedFacts(words);
      MultisetIn(ranked, t.order, w);
    }
    var p := IndexOf(ranked, w);
    assert p >= |r|;
    assert |ranked| > MaxKeywords;
    var last := ranked[MaxKeywords - 1];
    assert CountOf(t)(last) >= CountOf(t)(w) by {
      RankedFacts(words);
    }
    assert Freq(text, w) == CountOf(t)(w) by {
      RankedMember(words, w);
    }
    assert Freq(text, last) == CountOf(t)(last) by {
      RankedMember(words, last);
    }
  }

  lemma {:induction false} IndexOfDistinct(s: seq<string>, i: nat)
    requires Distinct(s) && i < |s|
    ensures IndexOf(s, s[i]) == i
  {
  }

  lemma {:induction false} IndexOfConcat(a: seq<string>, b: seq<string>, x: string)
    requires x in a + b
    ensures x in a ==> IndexOf(a + b, x) == IndexOf(a, x)
    ensures x !in a ==> x in b && IndexOf(a + b, x) == |a| + IndexOf(b, x)
  {
    if a != [] {
      assert (a + b)[0] == a[0];
      if a[0] != x {
        assert (a + b)[1..] == a[1..] + b;
        IndexOfConcat(a[1..], b, x);
      }
    } else {
      assert a + b == b;
    }
  }

  /** Where a table key lands among the entries: index keys in the sorted front part, the other
      keys in the back part. */
  lemma {:induction false} EntryOrderPlace(order: seq<string>, x: string)
    requires x in order
    ensures var front := SortDesc(Filter(order, IsIndexKey), IndexRank);
      var back := Filter(order, IsNamedKey);
      && (IsIndexKey(x) ==> x in front && IndexOf(EntryOrder(order), x) == IndexOf(front, x))
      && (IsNamedKey(x) ==> x !in front && x in back
                            && IndexOf(EntryOrder(order), x) == |front| + IndexOf(back, x))
  {
    var front := SortDesc(Filter(order, IsIndexKey), IndexRank);
    var back := Filter(order, IsNamedKey);
    var k := IndexOf(order, x);
    if IsIndexKey(x) {
      assert order[k] in Filter(order, IsIndexKey);
      assert x in multiset(front);
    } else {
      assert order[k] in back;
      var indexKeys := Filter(order, IsIndexKey);
      forall i | 0 <= i < |indexKeys| ensures indexKeys[i] != x {
        assert IsIndexKey(indexKeys[i]);
      }
      assert x !in front by {
        assert x !in indexKeys;
        assert x !in multiset(indexKeys);
        assert multiset(front) == multiset(indexKeys);
        assert x !in multiset(front);
      }
    }
    IndexOfConcat(front, back, x);
  }

  /** How `Object.entries` orders two distinct keys of a table. */
  lemma {:induction false} EntryOrderPrecedes(order: seq<string>, x: string, y: string)
    requires x in order && y in order && x != y && Distinct(order)
    requires x in EntryOrder(order) && y in EntryOrder(order)
    requires Precedes(EntryOrder(order), x, y)
    ensures !(IsNamedKey(x) && IsIndexKey(y))
    ensures IsIndexKey(x) && IsIndexKey(y) ==> ParseNat(x) < ParseNat(y)
    ensures IsNamedKey(x) && IsNamedKey(y) ==> Precedes(order, x, y)
  {
    var front := SortDesc(Filter(order, IsIndexKey), IndexRank);
    var back := Filter(order, IsNamedKey);
    EntryOrderPlace(order, x);
    EntryOrderPlace(order, y);
    if IsIndexKey(x) && IsIndexKey(y) {
      var a, b := IndexOf(front, x), IndexOf(front, y);
      assert a < b;
      assert IndexRank(x) >= IndexRank(y) by {
        assert front[a] == x && front[b] == y;
      }
      assert ParseNat(x) != ParseNat(y) by {
        CanonicalNumeralRoundTrip(x);
        CanonicalNumeralRoundTrip(y);
      }
    } else if IsNamedKey(x) && IsNamedKey(y) {
      assert IndexOf(back, x) < IndexOf(back, y);
      FilterPrecedes(order, IsNamedKey, x, y);
    }
  }

  /** The first `Min(15, |ranked|)` entries of the ranking are the keywords. */
  lemma {:induction false} KeywordsPrefix(text: string, i: nat)
    requires i < |KeywordsOf(text)|
    ensures i < |Ranked(Tally(Words(text)))|
    ensures KeywordsOf(text)[i] == Ranked(Tally(Words(text)))[i]
  {
  }

  /** A list without repetitions has as many elements as its set of elements. */
  lemma {:induction false} DistinctCard(s: seq<string>)
    requires Distinct(s)
    ensures |(set x | x in s)| == |s|
  {
    if s != [] {
      var rest := s[1..];
      assert Distinct(rest) by {
        forall i, j | 0 <= i < j < |rest| ensures rest[i] != rest[j] {
          assert rest[i] == s[i + 1] && rest[j] == s[j + 1];
        }
      }
      DistinctCard(rest);
      assert s[0] !in rest;
      assert (set x | x in s) == {s[0]} + (set x | x in rest) by {
        assert s == [s[0]] + rest;
      }
    }
  }

  /** The table's insertion order lists each counted word of `words` once. */
  lemma TallyKeySet(words: seq<string>)
    ensures (set w | w in words && Counted(w)) == (set x | x in Tally(words).order)
    ensures Distinct(Tally(words).order)
  {
    var t := Tally(words);
    TallyCounts(words);
    forall w ensures (w in words && Counted(w)) <==> w in t.order {
      assert w in t.counts <==> w in t.order;
    }
  }

  /** There are fifteen keywords, or fewer when the transcript has fewer distinct counted words:
      then every one of them is a keyword. */
  lemma KeywordsCount(text: string)
    ensures |KeywordsOf(text)| == Min(MaxKeywords, |(set w | w in Words(text) && Counted(w))|)
  {
    var words := Words(text);
    var t := Tally(words);
    assert |Ranked(t)| == |t.order| by {
      RankedFacts(words);
      assert |multiset(Ranked(t))| == |multiset(t.order)|;
    }
    TallyKeySet(words);
    DistinctCard(t.order);
  }

  /** Ties keep the order in which `Object.entries` lists the keys: of two keywords with equal
      frequency, a numeral key such as `12345` precedes any other word, two numeral keys come in
      ascending numeric order, and two other words in the order of their first occurrence in the
      transcript. */
  lemma {:induction false} KeywordsTieOrder(text: string, i: nat, j: nat)
    requires i < j < |KeywordsOf(text)|
    requires Freq(text, KeywordsOf(text)[i]) == Freq(text, KeywordsOf(text)[j])
    ensures var r := KeywordsOf(text);
      && !(IsNamedKey(r[i]) && IsIndexKey(r[j]))
      && (IsIndexKey(r[i]) && IsIndexKey(r[j]) ==> ParseNat(r[i]) < ParseNat(r[j]))
      && (IsNamedKey(r[i]) && IsNamedKey(r[j]) ==>
            r[i] in Words(text) && r[j] in Words(text)
            && IndexOf(Words(text), r[i]) < IndexOf(Words(text), r[j]))
  {
    var words := Words(text);
    var t := Tally(words);
    var ranked := Ranked(t);
    var eo := EntryOrder(t.order);
    KeywordsPrefix(text, i);
    KeywordsPrefix(text, j);
    var x, y := ranked[i], ranked[j];
    assert x in words && y in words && CountOf(t)(x) == CountOf(t)(y) by {
      RankedMember(words, x);
      RankedMember(words, y);
    }
    assert x != y && Precedes(ranked, x, y) by {
      RankedFacts(words);
      IndexOfDistinct(ranked, i);
      IndexOfDistinct(ranked, j);
    }
    assert x in t.order && y in t.order && x in eo && y in eo && Distinct(t.order) by {
      RankedFacts(words);
      TallyCounts(words);
      EntryOrderPermutes(t.order);
      MultisetIn(ranked, t.order, x);
      MultisetIn(ranked, t.order, y);
      MultisetIn(eo, t.order, x);
      MultisetIn(eo, t.order, y);
    }
    assert Precedes(eo, x, y) by {
      SortDescKeepsTieOrder(eo, CountOf(t), x, y);
    }
    EntryOrderPrecedes(t.order, x, y);
    if IsNamedKey(x) && IsNamedKey(y) {
      TallyOrder(words);
      var a, b := IndexOf(t.order, x), IndexOf(t.order, y);
      assert a < b && t.order[a] == x && t.order[b] == y;
    }
  }

  // ---------------------------------------------------------------------------------------------
  // The table as the source writes it. `wordFreq` is an ordinary object literal, so reading a
  // word that is not yet an own property falls back to `Object.prototype`: for `constructor` that
  // yields the function `Object`, for `__proto__` the prototype object itself. `(v || 0) + 1` then
  // concatenates strings instead of adding, and an assignment to `__proto__` with a string is
  // ignored by the prototype setter. The rest of this model uses the numeric table `Tally`.

  /** The JavaScript values a property of the as-written table can take. */
  datatype JsValue = Undefined | Number(n: nat) | Str(s: string) | Builtin(display: string)

  /** What a read of a missing own property yields on an object literal. */
  function InheritedValue(w: string): JsValue {
    if w == "constructor" then Builtin("function Object() { [native code] }")
    else if w == "__proto__" then Builtin("[object Object]")
    else Undefined
  }

  /** `(v || 0) + 1`. */
  function PlusOne(v: JsValue): JsValue {
    match v
    case Undefined => Number(1)
    case Number(n) => Number(n + 1)
    case Str(s) => if s == "" then Number(1) else Str(s + "1")
    case Builtin(d) => Str(d + "1")
  }

  datatype ObjectTable = ObjectTable(order: seq<string>, props: map<string, JsValue>)

  function ReadProp(t: ObjectTable, w: string): JsValue {
    if w in t.props then t.props[w] else InheritedValue(w)
  }

  /** `wordFreq[word] = (wordFreq[word] || 0) + 1` on the object literal. */
  function BumpAsWritten(t: ObjectTable, word: string): ObjectTable {
    if !Counted(word) || word == "__proto__" then t
    else
      var v := PlusOne(ReadProp(t, word));
      if word in t.props then ObjectTable(t.order, t.props[word := v])
      else ObjectTable(t.order + [word], t.props[word := v])
  }

  function TallyAsWritten(words: seq<string>): ObjectTable
    decreases |words|
  {
    if words == [] then ObjectTable([], map[])
    else BumpAsWritten(TallyAsWritten(words[..|words| - 1]), words[|words| - 1])
  }

  /** As written, the single word `constructor` is tallied as a string, not as the count 1. */
  lemma ConstructorCountAsWritten()
    ensures "constructor" in TallyAsWritten(["constructor"]).props
    ensures TallyAsWritten(["constructor"]).props["constructor"]
         == Str("function Object() { [native code] }1")
    ensures "constructor" in Tally(["constructor"]).counts
    ensures Tally(["constructor"]).counts["constructor"] == 1
  {
    assert ["constructor"][..0] == [];
    LongWordCounted("constructor");
    assert TallyAsWritten([]) == ObjectTable([], map[]);
    assert Tally([]) == FreqTable([], map[]);
  }

  /** As written, the word `__proto__` never enters the table. */
  lemma ProtoCountAsWritten()
    ensures "__proto__" !in TallyAsWritten(["__proto__"]).props
    ensures "__proto__" in Tally(["__proto__"]).counts
    ensures Tally(["__proto__"]).counts["__proto__"] == 1
  {
    assert ["__proto__"][..0] == [];
    LongWordCounted("__proto__");
    assert TallyAsWritten([]) == ObjectTable([], map[]);
    assert Tally([]) == FreqTable([], map[]);
  }

  /** Apart from those two words the as-written table and the numeric table agree. */
  lemma {:induction false} TallyAsWrittenAgrees(words: seq<string>)
    requires "constructor" !in words && "__proto__" !in words
    ensures TallyAsWritten(words).order == Tally(words).order
    ensures TallyAsWritten(words).props.Keys == Tally(words).counts.Keys
    ensures forall w :: w in Tally(words).counts ==>
      TallyAsWritten(words).props[w] == Number(Tally(words).counts[w])
    decreases |words|
  {
    if words != [] {
      var pre := words[..|words| - 1];
      assert pre + [words[|words| - 1]] == words;
      assert forall w :: w in pre ==> w in words;
      TallyAsWrittenAgrees(pre);
    }
  }
}
