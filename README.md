# Meeting summarizer — a Dafny model

This project models the rule-based meeting summarizer of the meeting-notes backend
(`HuggingFaceService` in `backend/services/huggingFaceService.js`). Despite its name, the service
calls no model and no network. From a transcript it builds a summary record with five fields:

- an overview paragraph;
- up to five key decisions;
- up to five action items;
- up to five discussion topics;
- up to five next steps.

It builds the record from fixed rules:

- the transcript is cut into sentences at `.`, `!` and `?`, and only trimmed pieces longer than
  twenty characters are kept;
- the words are counted in a frequency table, and the fifteen most frequent become the keywords;
- a sentence belongs to a category when it contains one of that category's trigger phrases, and
  near-duplicates are dropped;
- a topic line is built for each of the first five keywords;
- the overview quotes the opening sentences and adds a statistics line.

`generateSummary` catches an exception from the smart path and then calls `createBasicSummary`.
The model takes as a parameter whether the smart path raised. It does not claim that the basic path then succeeds (see "## Left out").

The model has one module per concern:

| module | file | what it holds |
|---|---|---|
| `Text` | `text.dfy` | JavaScript string operations the service uses: `split` on a character class, `trim`, ASCII `toLowerCase`, `includes`, `join`, decimal rendering |
| `Sorting` | `sorting.dfy` | a stable descending sort (the contract of `Array.prototype.sort`) and sequence helpers |
| `Sentences` | `sentences.dfy` | sentence segmentation and the word count |
| `Keywords` | `keywords.dfy` | `extractKeywords`: words, stop words, the frequency table, `Object.entries` order, ranking |
| `Content` | `content.dfy` | `extractContent` and the three trigger tables |
| `Topics` | `topics.dfy` | `createTopics` |
| `Overview` | `overview.dfy` | `generateOverview` |
| `Summarizer` | `summary.dfy` | the summary record, `createSmartSummary`, `createBasicSummary`, `generateSummary` |

Where the source works by a loop, the model is a method whose loop is proved equal to a
specification function. The properties are then proved about that function:

| method | function it is proved equal to |
|---|---|
| `ExtractContent` | `Collect` |
| `CreateTopics` / `TopicLine` | `TopicsOf` / `Topic` |
| `CountWords` | `Tally` |
| `ExtractKeywords` | `KeywordsOf` |
| `CreateSmartSummary` | `SmartSummary` |

The pure parts are functions: the `split`/`map`/`filter` chains, the overview, the basic summary
and the record assembly.

Points where the code is followed exactly:

- The placeholder strings have no trailing period, except "No transcript available." and
  "No meaningful content found in transcript.".
- Truncation appends three dots (`...`).
- A word must be longer than four characters to count, so a four-letter word such as "beta" is
  never a keyword.
- `Object.entries` lists the canonical array-index keys of the table first, in ascending numeric
  order, and then the other keys in insertion order. The model keeps this order. Keys with equal
  counts keep this order through the stable sort (`Keywords.KeywordsTieOrder`).
- `\s` and `trim` use JavaScript's white-space set. `\W` is the complement of `[A-Za-z0-9_]`.
- The falsy empty string is handled as the source handles it:
  - `sentences.find` returning `""` yields the "Discussion about" line;
  - `transcript || ...` replaces an empty transcript with its placeholder.

## Model

| member | source | states |
|---|---|---|
| Text.Split | backend/services/huggingFaceService.js:32 | `split` on a run-of-separators pattern: there is always at least one piece, and no piece contains a separator |
| Text.SplitNoSep | backend/services/huggingFaceService.js:32 | a string without separators splits into itself alone |
| Text.SplitCut | backend/services/huggingFaceService.js:32 | where the cuts fall: a maximal run of separators between `a` and `b` (neither touching the run with a separator of its own) gives the pieces of `a` followed by those of `b`; with SplitNoSep this fixes every split |
| Text.SplitConcat | backend/services/huggingFaceService.js:32 | the pieces of a split, joined back together, give the input with every separator deleted: nothing else is lost or reordered |
| Text.SplitCount | backend/services/huggingFaceService.js:40 | the number of pieces is one more than the number of separator runs |
| Text.Trim | backend/services/huggingFaceService.js:33 | `trim` keeps a contiguous middle part of the input with no white space at either end, drops only white space, and yields "" exactly when the input is all white space |
| Text.TrimKeepsNoSep | backend/services/huggingFaceService.js:33 | trimming a piece that holds no terminator leaves a piece that holds no terminator |
| Text.Lower | backend/services/huggingFaceService.js:98 | `toLowerCase` keeps the length, changes only capital letters, and turns each capital into the small letter whose upper case it is; it keeps which characters are word characters |
| Text.LowerAppend | backend/services/huggingFaceService.js:147 | lower-casing distributes over concatenation |
| Text.LowerPrefix | backend/services/huggingFaceService.js:107 | lower-casing the first fifty characters equals taking the first fifty characters of the lower-cased sentence |
| Text.Join | backend/services/huggingFaceService.js:82 | `join` starts with its first part, and its length is the parts' lengths plus one delimiter between each pair |
| Text.JoinAppend | backend/services/huggingFaceService.js:82 | joining one more part appends the delimiter and then that part, so every later part follows its own delimiter in order |
| Text.NatToString | backend/services/huggingFaceService.js:86 | the decimal rendering of a count is non-empty, all digits, and starts with `0` only for zero |
| Text.NatToStringRoundTrip | backend/services/huggingFaceService.js:86 | reading the rendered numeral back gives the number |
| Text.CanonicalNumeralRoundTrip | backend/services/huggingFaceService.js:168 | a canonical numeral (digits, no leading zero) is the rendering of its own value, so an array-index key names one number |
| Sorting.SortDesc | backend/services/huggingFaceService.js:169 | the sort returns a permutation of its input in non-increasing key order |
| Sorting.SortDescStable | backend/services/huggingFaceService.js:169 | for every key value, the entries with that key appear in the same order as in the input (stability) |
| Sorting.SortDescKeepsTieOrder | backend/services/huggingFaceService.js:169 | two entries with equal keys keep their relative order |
| Sorting.Filter | backend/services/huggingFaceService.js:168 | selecting the index keys (or the named keys) of the table keeps exactly the keys of that kind, and nothing else |
| Sentences.KeepLong | backend/services/huggingFaceService.js:33-34 | the kept pieces are trimmed, longer than twenty characters, and no more numerous than the pieces |
| Sentences.KeepLongSingle | backend/services/huggingFaceService.js:33-34 | a single piece gives its trimmed form when that is longer than twenty characters, and nothing otherwise |
| Sentences.KeepLongAppend | backend/services/huggingFaceService.js:33-34 | each piece is judged on its own and kept in place: the result for two lists of pieces is the result for the first followed by the result for the second |
| Sentences.Segment | backend/services/huggingFaceService.js:31-34 | the sentences of a transcript: the split on `[.!?]+`, trimmed and filtered; every sentence is trimmed and longer than twenty characters (its other properties are SegmentShape, and SegmentNoTerminator with SegmentAppend, which together fix it) |
| Sentences.SegmentNoTerminator | backend/services/huggingFaceService.js:31-34 | a transcript without a terminator gives at most one sentence, itself trimmed, when that is longer than twenty characters; with SegmentAppend this determines the sentences of every transcript |
| Sentences.SegmentShape | backend/services/huggingFaceService.js:31-34 | every sentence is longer than twenty characters, has no white space at either end, and contains no `.`, `!` or `?` |
| Sentences.SegmentAppend | backend/services/huggingFaceService.js:31-34 | sentences keep transcript order: cutting the transcript at a terminator gives the sentences of the part before, followed by those of the part after |
| Sentences.WordCount | backend/services/huggingFaceService.js:40 | the word count is one more than the number of white-space runs, so "" counts one word, and a leading or trailing run adds one |
| Keywords.Counted | backend/services/huggingFaceService.js:162 | the filter of the `forEach`: longer than four characters and not a stop word (its properties are LongWordCounted and TallyCounts) |
| Keywords.ListedIsMembership | backend/services/huggingFaceService.js:149-156 | the stop-word lookup holds exactly for the listed stop words |
| Keywords.LongWordCounted | backend/services/huggingFaceService.js:162 | every word longer than seven characters is counted, since no stop word is that long |
| Keywords.Words | backend/services/huggingFaceService.js:147 | every word is made of word characters only and contains no capital letter |
| Keywords.WordsOfWord | backend/services/huggingFaceService.js:147 | a run of word characters is one word, lower-cased |
| Keywords.WordsCut | backend/services/huggingFaceService.js:147 | a maximal run of non-word characters separates the words before it from those after it; with WordsOfWord the words are the maximal word-character runs of the lower-cased text |
| Keywords.CountWords | backend/services/huggingFaceService.js:158-165 | the counting loop builds the table `Tally` of the words |
| Keywords.TallyCounts | backend/services/huggingFaceService.js:158-165 | the table's keys are exactly the counted words that occur (longer than four characters, not stop words); each key maps to its number of occurrences; the insertion order lists each key once |
| Keywords.TallyOrder | backend/services/huggingFaceService.js:160-164 | the table's insertion order is the order of first occurrence in the transcript |
| Keywords.EntryOrderPermutes | backend/services/huggingFaceService.js:168 | `Object.entries` lists exactly the table's keys, each once |
| Keywords.EntryOrderPrecedes | backend/services/huggingFaceService.js:168 | `Object.entries` puts array-index keys before named keys, index keys in ascending numeric order, and named keys in insertion order |
| Keywords.RankedMember | backend/services/huggingFaceService.js:168-169 | every ranked word is a counted word of the transcript, ranked with its number of occurrences |
| Keywords.ExtractKeywords | backend/services/huggingFaceService.js:145-172 | the method returns `KeywordsOf` of the text |
| Keywords.KeywordsAreCountedWords | backend/services/huggingFaceService.js:145-172 | at most fifteen keywords without repetition; each is a lower-case word of the transcript that is counted |
| Keywords.KeywordsByFrequency | backend/services/huggingFaceService.js:168-170 | keywords come in order of non-increasing frequency |
| Keywords.KeywordsAreTop | backend/services/huggingFaceService.js:168-170 | if a counted word is not a keyword, the list is full at fifteen and the word is no more frequent than the last keyword |
| Keywords.KeywordsCount | backend/services/huggingFaceService.js:168-170 | there are min(15, number of distinct counted words) keywords, so when fewer than fifteen distinct words are counted every one of them is a keyword |
| Keywords.Tally | backend/services/huggingFaceService.js:158-165 | the frequency table after the words in order; its properties are TallyCounts and TallyOrder |
| Keywords.Bump | backend/services/huggingFaceService.js:162-163 | one `forEach` step: a counted word gets its count raised by one, or is inserted with count 1 at the end of the insertion order; other words leave the table unchanged (used by Tally) |
| Keywords.EntryOrder | backend/services/huggingFaceService.js:168 | the key order of `Object.entries`; its properties are EntryOrderPermutes and EntryOrderPrecedes |
| Keywords.Ranked | backend/services/huggingFaceService.js:168-169 | the entries sorted by descending count; its properties are RankedMember and KeywordsByFrequency |
| Keywords.KeywordsOf | backend/services/huggingFaceService.js:145-172 | the first fifteen ranked words; its properties are KeywordsAreCountedWords, KeywordsByFrequency, KeywordsAreTop, KeywordsCount and KeywordsTieOrder |
| Keywords.TallyAsWritten | backend/services/huggingFaceService.js:158-165 | the table as the plain object literal builds it; its properties are ConstructorCountAsWritten, ProtoCountAsWritten and TallyAsWrittenAgrees |
| Keywords.KeywordsTieOrder | backend/services/huggingFaceService.js:168-171 | for two keywords of equal frequency: an earlier one is never a named key before an index key; two index keys come in ascending numeric order; two named keys come in order of first occurrence |
| Keywords.BumpAsWritten | backend/services/huggingFaceService.js:162-163 | line 163 as written on the object literal: an uncounted word or `__proto__` leaves the table unchanged; otherwise the value read (own, or inherited through InheritedValue) goes through PlusOne and is stored, a new key at the end of the insertion order; its properties are ConstructorCountAsWritten, ProtoCountAsWritten and TallyAsWrittenAgrees |
| Keywords.InheritedValue | backend/services/huggingFaceService.js:163 | the read of a missing own property on an object literal: the `Object` function for `constructor`, `Object.prototype` for `__proto__`, and `undefined` otherwise (used by BumpAsWritten) |
| Keywords.PlusOne | backend/services/huggingFaceService.js:163 | `(v \|\| 0) + 1`: a falsy value gives 1, a number is increased, anything else is turned into a string with "1" appended (used by BumpAsWritten) |
| Keywords.ReadProp | backend/services/huggingFaceService.js:163 | `wordFreq[word]`: the own property when present, the inherited value otherwise (used by BumpAsWritten) |
| Keywords.ConstructorCountAsWritten | backend/services/huggingFaceService.js:158-163 | as written, the word `constructor` is stored as the string "function Object() { [native code] }1", where the count is 1 |
| Keywords.ProtoCountAsWritten | backend/services/huggingFaceService.js:158-163 | as written, the word `__proto__` never enters the table, where its count is 1 |
| Keywords.TallyAsWrittenAgrees | backend/services/huggingFaceService.js:158-165 | for transcripts without those two words, the as-written object table has the same keys, the same order and the same numeric counts as `Tally` |
| Content.ExtractContent | backend/services/huggingFaceService.js:93-119 | the loop, including its early `break` at five matches, returns `Collect` of the sentences |
| Content.CollectSaturated | backend/services/huggingFaceService.js:115 | once five sentences are collected, the remaining sentences change nothing |
| Content.CollectSound | backend/services/huggingFaceService.js:97-115 | at most five sentences are collected, each a sentence of the input that mentions a trigger |
| Content.CollectDistinctKeys | backend/services/huggingFaceService.js:106-111 | no two collected sentences agree, up to case, in their first fifty characters |
| Content.CollectCovers | backend/services/huggingFaceService.js:105-115 | unless five were collected by the end, the key of every sentence with a trigger is the key of some collected sentence |
| Content.CollectPrefix | backend/services/huggingFaceService.js:97-116 | what is collected from the first sentences stays unchanged at the front of the final result |
| Content.CollectDecides | backend/services/huggingFaceService.js:105-115 | for a sentence with a trigger that comes while fewer than five are held: if no sentence accepted before it has its key, it is taken right after them; otherwise one of the sentences accepted before it has its key |
| Content.Collect | backend/services/huggingFaceService.js:93-119 | what the loop has collected after each prefix of the sentences; its properties are the Collect lemmas above |
| Text.Contains | backend/services/huggingFaceService.js:101 | `includes`: the needle occurs at some position of the haystack (used by HasTrigger and Mentions) |
| Content.HasTrigger | backend/services/huggingFaceService.js:98-103 | `keywords.some(...)`: some trigger occurs in the lower-cased sentence, both lower-cased (used by Collect) |
| Content.DedupKey | backend/services/huggingFaceService.js:107 | the near-duplicate key: the sentence's first fifty characters, lower-cased (used by Collect) |
| Content.CollectOrder | backend/services/huggingFaceService.js:97-110 | collected sentences keep transcript order (compared by first occurrence) |
| Content.CollectEmpty | backend/services/huggingFaceService.js:97-118 | nothing is collected exactly when no sentence mentions a trigger |
| Topics.Mentions | backend/services/huggingFaceService.js:128-130 | the `find` callback: the lower-cased keyword occurs in the lower-cased sentence (its properties are FindMentioning and TopicMentionsKeyword) |
| Topics.FindMentioning | backend/services/huggingFaceService.js:128-130 | `find` returns the first sentence mentioning the keyword up to case, or nothing when no sentence does |
| Topics.Capitalize | backend/services/huggingFaceService.js:136 | capitalising upper-cases the first character and keeps the rest unchanged, so the length and the lower-case form are kept |
| Topics.Snippet | backend/services/huggingFaceService.js:133-135 | a sentence of at most 100 characters is kept whole; a longer one becomes its first 100 characters followed by `...` |
| Topics.Topic | backend/services/huggingFaceService.js:125-139 | the line for one keyword; its properties are TopicQuotesFirstMention, TopicWithoutMention and TopicMentionsKeyword |
| Topics.TopicsOf | backend/services/huggingFaceService.js:121-143 | the lines for the first five keywords, or the general placeholder; its properties are TopicsCount |
| Topics.TopicLine | backend/services/huggingFaceService.js:125-139 | the loop body, one keyword: the `find` and the two branches on the sentence found, proved to give `Topic` of the keyword |
| Topics.CreateTopics | backend/services/huggingFaceService.js:121-143 | the method returns `TopicsOf` the keywords and sentences |
| Topics.TopicsCount | backend/services/huggingFaceService.js:121-143 | one line per keyword for the first min(5, #keywords) keywords, in keyword order; the single general-discussion line when there are no keywords |
| Topics.TopicQuotesFirstMention | backend/services/huggingFaceService.js:128-136 | when the first sentence mentioning a keyword is non-empty, the line is the capitalised keyword, `: ` and that sentence's snippet |
| Topics.TopicWithoutMention | backend/services/huggingFaceService.js:137-138 | a keyword no sentence mentions gets the line `Discussion about <keyword>` |
| Topics.TopicMentionsKeyword | backend/services/huggingFaceService.js:128-138 | every topic line mentions its keyword up to case |
| Overview.StatsLength | backend/services/huggingFaceService.js:86 | the statistics line is always longer than the no-content placeholder |
| Overview.OverviewPlaceholder | backend/services/huggingFaceService.js:75-91 | the overview is the no-content placeholder exactly when there are no sentences |
| Overview.OverviewShape | backend/services/huggingFaceService.js:80-90 | with sentences, the overview ends with the statistics line; when the joined opening sentences are longer than fifty characters it is exactly the opening, one space and the statistics line, and otherwise the statistics line alone |
| Overview.Opening | backend/services/huggingFaceService.js:81-82 | the first three sentences (or fewer) joined with `. ` and closed with `.`; its properties are LongOpening and OverviewShape |
| Overview.Stats | backend/services/huggingFaceService.js:85-86 | the statistics line; its properties are StatsLength and StatsReadBack |
| Overview.GenerateOverview | backend/services/huggingFaceService.js:75-91 | `generateOverview`; its properties are OverviewPlaceholder, OverviewShape and LongOpening |
| Overview.LongOpening | backend/services/huggingFaceService.js:81-89 | three sentences of more than twenty characters each make the opening long enough to quote, and the overview then starts with the first sentence |
| Overview.StatsReadBack | backend/services/huggingFaceService.js:86 | the statistics line reports the sentence count and the word count: each numeral in it reads back as its number |
| Summarizer.CreateSmartSummary | backend/services/huggingFaceService.js:29-73 | the method returns `SmartSummary` of the transcript |
| Summarizer.SmartSummary | backend/services/huggingFaceService.js:29-73 | the record for a transcript; its properties are SmartSummaryWellFormed |
| Summarizer.OrPlaceholder | backend/services/huggingFaceService.js:68-71 | the ternaries `items.length > 0 ? items : [placeholder]`: the items when there are some, the placeholder alone otherwise (its properties are ListOrPlaceholder) |
| Summarizer.Assemble | backend/services/huggingFaceService.js:66-72 | the record from sentences, word count and keywords; its properties are AssembleWellFormed and ListOrPlaceholder |
| Summarizer.ListOrPlaceholder | backend/services/huggingFaceService.js:66-72 | each category list holds one to five entries. It is the placeholder alone when no sentence matches; otherwise its entries are matching transcript sentences, pairwise not near-duplicates. When the placeholder itself contains no trigger, the list is the placeholder exactly when nothing matches |
| Summarizer.AssembleWellFormed | backend/services/huggingFaceService.js:66-72 | every assembled record has a non-empty overview and one to five entries per list; its overview is the no-content placeholder exactly when there is no sentence |
| Summarizer.SmartSummaryWellFormed | backend/services/huggingFaceService.js:29-73 | every smart summary is well formed, and its overview is the no-content placeholder exactly when the transcript has no sentence |
| Summarizer.BasicSummaryShape | backend/services/huggingFaceService.js:174-186 | the basic summary is well formed. A transcript of 1 to 200 characters is the overview itself; a longer one gives its first 200 characters followed by `...`; an empty transcript gives "No transcript available.". Every list is the single "Unable to analyze" placeholder |
| Summarizer.BasicSummary | backend/services/huggingFaceService.js:174-186 | `createBasicSummary`; its properties are BasicSummaryShape |
| Summarizer.SelectSummaryWellFormed | backend/services/huggingFaceService.js:6-27 | whichever path produced it, the summary `generateSummary` returns is well formed |
| Summarizer.SelectSummary | backend/services/huggingFaceService.js:6-27 | the smart summary, or the basic one when the smart path raised; its properties are SelectSummaryWellFormed |

## Left out

- Logging: the `console.log` and `console.error` calls are output only.
- Asynchrony: `generateSummary` is `async`. The model returns the summary directly.
- The API key parameter of the constructor: it is unused.
- Summarizer.ListOrPlaceholder: the "placeholder exactly when nothing matches" clause is stated under the condition that the placeholder contains no trigger of its own table. That condition is not discharged for the three placeholder literals, because it needs character-level facts about long string literals.
- Exceptions: `Summarizer.SelectSummary` takes a flag saying whether `createSmartSummary` raised. Which inputs raise is not modelled. The inputs that do raise are null and non-strings. For those, `createBasicSummary` raises too, at `transcript.split` on line 175, so `generateSummary` rejects. The model does not claim that the fallback produces a summary for them.
- Dynamic types: the transcript is always a string.
- Code units: lengths and `substring` positions count characters as code points, not UTF-16 code units. A transcript with characters outside the Basic Multilingual Plane measures differently in the source.
- Case mapping: `toLowerCase` and `toUpperCase` map ASCII letters only. Other letters are kept as they are.
- Keywords.KeywordsOf: models the count as a number for every word. The source's plain-object table turns the count of `constructor` into a string and never stores `__proto__` (see Findings). The model does not follow the as-written string count into the sort comparator, where `b[1] - a[1]` becomes `NaN`.
- The unused `wordCount` computed in `createBasicSummary` is not modelled.
- The if-and-only-if between an empty extraction and the placeholder list holds only for placeholders without a trigger. The action-item and next-step placeholders contain the triggers `action` and `next`, so a transcript sentence equal to one of them is collected and reads like the placeholder.
- The rest of the backend: routes, storage and the transcription client are not part of this model.

## Findings

| source | as written | input that shows it | evidently intended | confidence | as-written member | corrected member |
|---|---|---|---|---|---|---|
| backend/services/huggingFaceService.js:158-163 | `wordFreq` is a plain object literal. `wordFreq[word] \|\| 0` reads the inherited `Object.prototype` property for the word `constructor`, so `+ 1` concatenates onto the function's text. For `__proto__` the read yields `Object.prototype`, so the value assigned is the string "[object Object]1". The `__proto__` setter ignores a value that is not an object, so no key is ever added. | a transcript containing the word "constructor" or "__proto__" | every counted word maps to its number of occurrences, for example with `Object.create(null)` or a `Map` | not executed | Keywords.ConstructorCountAsWritten | Keywords.TallyCounts |
