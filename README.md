# Elite News Curator: a Dafny model of the selection core

The curator gets a list of news titles and sends them in batches to six language
models. Each model returns the ids of the articles it would keep. An article
named by at least two model replies is a consensus pick. One more model call then
groups the picks into clusters of near-duplicates. Each cluster is published once,
with links to the other members. The result is split into a Bangla feed and an
English feed.

This project models that core in `main.py`, on values, as the code does it:

| module | models |
|---|---|
| `Text` | Python's `str.strip`, and `re.sub(r'```(?:json)?', '', …, re.IGNORECASE)` as `RemoveFences` |
| `Json` | what `json.loads` can return: a JSON value whose objects keep their key/value pairs in order; lookup where the last pair wins; iteration over the keys |
| `Extractor` | `extract_json_from_text`: strip the fences, parse the whole text, find the first `[`/`{`, walk the brackets with the string/escape state, repair trailing commas, and fall back to the outermost `[`…`]` |
| `Retry` | the retry loop of `call_model`: five attempts, what each kind of response leads to, and the pause it asks for |
| `Batching` | the model roster, the `range(0, n, bs)` batches, and the number of rounds |
| `Consensus` | the vote filter `0 <= aid < len(articles)`, `selections_map` (insertion-ordered, voters appended, counts), and the consensus filter `count >= 2` |
| `Coerce` | `int(x)` on JSON values and on strings (sign, ASCII digits, `_` between digits, surrounding whitespace), and iteration of a JSON value (`for x in c['members']`) |
| `Clusters` | how the clustering reply is read: the wrapper keys, then the validation loop of `call_gemini_cluster` |
| `ClusterMap` | the two loops that build `cluster_map`, including singletons under fresh ids |
| `Curator` | the clustered items, the fallback when there are no clusters, the language split, and the whole run after the feed is loaded |
| `Language` | `is_bangla` and the two list comprehensions that split a list by it |
| `Seqs`, `Dicts`, `Wrappers` | an order-keeping filter, an insertion-ordered dictionary (Python `dict`), and `Option` |

The loops of the source are methods. Each one is proved equal to a function that
specifies it:
- `FindOpener`, `WalkBrackets` and `ExtractJsonFromText`;
- `CallModel`;
- `RecordReply`, `RecordRound`, `Aggregate` and `SelectConsensus`;
- `Validate`, `BuildClusterMap`, `LinkSimilar`, `CollectItems` and `RunCuration`.

The lemmas then state what the code promises about those functions.

The outside world enters as parameters:
- `json.loads` is an oracle `parse: string -> Option<Json>`. It gives `None` when `loads` raises. The model never assumes what it returns.
- Each model HTTP call is a sequence of `Attempt`s. An attempt is a network error, or a status code with a body. The body is either undecodable, or what the extractor made of its text.
- A model's decisions for one batch are a list of integers.
- The clustering call is a `ClusterReply`. It failed, or it gave an extracted value.

Behaviour of the code a reader may not expect, which the model keeps:
- A reply whose status is not 200, not 429 and below 500 is not given up on: the loop pauses 2 s and tries again (`main.py:263-272`).
- A `cluster_id` that `int` rejects is converted outside the `try` (`main.py:335`). So one bad `cluster_id` makes the whole clustering call return `None`, instead of only that entry being skipped. `Clusters.ValidateFailsExactly` states this.
- The union of the published clusters is not always the set of consensus ids. Members of a cluster whose main is not a consensus pick are dropped (`Curator.ForeignMainDropsMembers`). A repeated cluster id overwrites the earlier cluster, and its members stay "used" (`ClusterMap.RepeatedIdLosesMember`). `Curator.EveryFinalIsPublished` proves coverage when cluster ids are distinct and every member is a consensus pick.

## Model

| member | source | states |
|---|---|---|
| Language.SplitByLanguage | main.py:444-445 | defines the two feeds: the items whose title `IsBangla` holds, then the others, each in list order |
| Language.IsBangla | main.py:49-50 | true exactly when some character of the title lies in U+0980..U+09FF |
| Language.SplitIsPartition | main.py:444-445 | the Bangla and English lists together are a permutation of the input; an item is in the Bangla list iff its title is Bangla, and in the English list iff it is not |
| Language.BanglaKeepsOrder | main.py:404 | the Bangla list is a subsequence of the input: each of its items has a position in the input, and the positions strictly increase |
| Language.EnglishKeepsOrder | main.py:405 | the English list is a subsequence of the input in the same sense |
| Language.BengaliLetterDecides | main.py:49-50 | a title with one Bengali letter is Bangla; an ASCII title is not |
| Text.Strip | main.py:143 | defines `strip` as `lstrip` then `rstrip` |
| Text.RemoveFences | main.py:143 | defines the regex deletion: scanning left to right, each three backticks are deleted together with a following `json` in any ASCII case; every other character is kept; never longer than the input |
| Text.TrimStart | main.py:143 | the result is a suffix of the input that does not start with whitespace |
| Text.TrimEnd | main.py:143 | the result is a prefix of the input that does not end with whitespace |
| Text.StripIsInfix | main.py:143 | the stripped text is a contiguous slice of the input |
| Text.StripPadding | main.py:143 | whitespace of any length before and after a text whose ends are not whitespace is exactly what `strip` removes |
| Text.RemoveFencesNoBacktick | main.py:143 | text without a backtick passes through unchanged |
| Text.RemoveFencesPrefix | main.py:143 | a backtick-free prefix is kept, and the rest is processed on its own |
| Text.RemoveFencesJsonFence | main.py:143 | three backticks followed by `json` in any ASCII letter case are deleted as one 7-character match |
| Text.RemoveFencesPlainFence | main.py:143 | three backticks not followed by `json` (in any ASCII case) are deleted and the text after them is kept |
| Extractor.Clean | main.py:143 | defines the cleaned text: fences removed, then stripped |
| Extractor.LexStep | main.py:161-170 | defines one step of the string state: an escape is consumed, a backslash starts one, the opening quote ends the string, a quote outside a string opens one |
| Extractor.StackStep | main.py:168-180 | defines one step of the closer stack outside strings: an opener pushes its closer, a closer pops a match or breaks the walk |
| Extractor.ScanFrom | main.py:159-192 | defines the walk from index `i`: it closes at the first prefix whose stack is empty, breaks at the first break, or runs off the end |
| Extractor.ParseOrRepair | main.py:184-191 | defines the candidate step: `json.loads` of the span, else `json.loads` of its repair |
| Extractor.Fallback | main.py:193-205 | defines the fallback: the span from the first `[` to the last `]` when the `]` comes later, else none |
| Extractor.ExtractCleaned | main.py:144-205 | defines the steps after cleaning: direct parse, no opener gives none, a closed walk decides, else the fallback |
| Extractor.Extract | main.py:140-205 | defines `extract_json_from_text`: empty text gives none, else the steps on the cleaned text |
| Extractor.FirstOpener | main.py:148-154 | the index of the first `[` or `{`, or none exactly when there is neither |
| Extractor.FindFirst | main.py:193 | `find`: the first index holding the character, and none iff it is absent |
| Extractor.FindLast | main.py:194 | `rfind`: the last index holding the character, and none iff it is absent |
| Extractor.Scan | main.py:155-192 | a closing walk ends strictly after its start and within the text |
| Extractor.ScanClosedSpan | main.py:181-183 | when the walk closes, the span starts at the opener, ends with its matching closer, and balances: the bracket stack is empty at the end and never empty before |
| Extractor.ScanBrokenAt | main.py:175-180 | when the walk breaks, some closer outside a string literal has no matching opener on the stack |
| Extractor.ScanRanOffOpen | main.py:159-192 | when the walk reaches the end of the text, the stack never emptied |
| Extractor.StringLiteralInert | main.py:161-170 | a quoted literal (with escapes) leaves the bracket stack and the lexer state unchanged |
| Extractor.CommaRun | main.py:187 | a match of `,\s*` that the repair deletes stops just before a closer |
| Extractor.Repair | main.py:187 | the repair never lengthens the text |
| Extractor.RepairDeletesOnlyCommasAndSpaces | main.py:187 | the repaired text equals the input once commas and whitespace are ignored |
| Extractor.RepairNoComma | main.py:187 | text without a comma is unchanged by the repair |
| Extractor.RepairSplit | main.py:187 | the repair of `a + x` is the repair of `a` followed by the repair of `x`, when `x` starts with a comma |
| Extractor.TrailingCommaRemoved | main.py:187 | `, <spaces> ]` becomes `]`, and the text around it is repaired independently |
| Extractor.NoOpenerGivesNone | main.py:148-154 | when the whole text does not parse and has no `[` or `{`, the result is none |
| Extractor.WalkDecides | main.py:155-205 | a closed walk decides the result from its span (a parse, else a parse of the repair, else none); otherwise the fallback decides |
| Extractor.FallbackSpan | main.py:193-204 | a fallback result comes from the slice between the first `[` and the last `]` |
| Extractor.FallbackNeedsPair | main.py:195-205 | without a `]` after a `[`, the fallback gives none |
| Extractor.ExtractSound | main.py:140-205 | every result is the parse of the cleaned text, of one of its slices, or of a slice's repair |
| Extractor.CleanedSound | main.py:144-205 | the same, for the steps after cleaning |
| Extractor.FencedCoreRecovered | main.py:143-192 | prose, then a ```json fence around a balanced value, gives that value parsed (or repaired and parsed) |
| Extractor.FindOpener | main.py:148-154 | the loop finds `FirstOpener` |
| Extractor.WalkBrackets | main.py:155-192 | the walk with its stack, quote and escape state gives `Scan` |
| Extractor.ExtractJsonFromText | main.py:140-205 | the method, with its opener loop, bracket walk, candidate span, parse and repair, gives `Extract`; empty text gives none |
| Retry.AttemptWaits | main.py:236-272 | defines the pauses of one attempt: 5 then 2 after a network error, none after an undecodable 200, 2 and 2 after a 200 without a list, 30·2^a after a 429, 10 after a 5xx, 2 otherwise |
| Retry.Policy | main.py:231-273 | defines `call_model` on the outcomes: the attempts from the first on, stopping at a list reply, `[]` after five |
| Retry.Pow2 | main.py:264 | every power of two is positive |
| Retry.AttemptStep | main.py:236-272 | an attempt ends the call exactly when it is a 200 whose extracted value is a JSON list |
| Retry.RetryFrom | main.py:233-273 | at most five attempts, and at least one more from any attempt before the fifth |
| Retry.CallModel | main.py:231-273 | the loop returns the list, the pauses and the attempt count of `Policy` |
| Retry.NoListExhausts | main.py:273 | when no remaining attempt gives a list, the call uses all five attempts and returns `[]` |
| Retry.FirstListWins | main.py:258-260 | the first list reply is returned, with its attempt number plus one as the count |
| Retry.CallModelContract | main.py:231-273 | 1 to 5 attempts; `[]` after five attempts without a list; otherwise the first list reply and its attempt number |
| Retry.WaitSchedule | main.py:236-272 | the pauses are those of each attempt made, in order |
| Retry.RateLimitPause | main.py:263-266 | a 429 on attempt `a` pauses 30·2^a seconds and nothing else |
| Retry.Pow2Grows | main.py:264 | powers of two strictly increase |
| Retry.RateLimitWaitsIncrease | main.py:264 | a later 429 pauses strictly longer |
| Retry.ThreeRateLimitsThenList | main.py:233-266 | three 429s then a 200 with a list: that list, after pauses 30, 60 and 120, on attempt 4 |
| Batching.BatchCountIsCeiling | main.py:371 | the batch count is zero iff there are no articles, and is the ceiling of n/bs |
| Batching.Batches | main.py:371 | the count of batches; each is non-empty and at most `bs` long; all but the last are exactly `bs` |
| Batching.BatchesConcat | main.py:371 | concatenating the batches gives back the article list |
| Batching.BatchAt | main.py:371 | batch `k` is `xs[k*bs : (k+1)*bs]`, clipped at the end |
| Batching.MaxBatchCount | main.py:372 | the largest batch count in the roster, reached by some model |
| Batching.Rounds | main.py:373-375 | at most 20 rounds, and every model's batches are visited up to that cap |
| Batching.RosterSizesPositive | main.py:21-28 | every model of the roster has a positive batch size |
| Consensus.RoundVotes | main.py:376-386 | defines the votes of round `k`: for each model in order that has batch `k`, its reply's in-range decisions |
| Consensus.AllVotes | main.py:374-389 | defines every vote, round after round |
| Consensus.Record | main.py:383-386 | defines one vote's update of `selections_map`: a new id gets an empty entry at the end of the order, then the voter is appended and the count incremented |
| Consensus.TallyOf | main.py:374-386 | defines `selections_map` after a sequence of votes |
| Consensus.ConsensusIds | main.py:390-392 | defines the ids with a count of at least two, in the map's order |
| Consensus.CurateKeys | main.py:390-397 | defines `final_articles` for a list of keys: each passing key's article with its voters, category and reason |
| Consensus.ReplyVotes | main.py:380-382 | no more votes than decisions |
| Consensus.ReplyVotesInRange | main.py:382 | every vote is for an id in `[0, n)` and carries the model's display name |
| Consensus.ReplyVotesAreInRangeIds | main.py:380-385 | a vote comes from exactly the decisions that are in range, under this model's name |
| Consensus.TallyValid | main.py:383-386 | the tally's key list and key set agree, without repeats |
| Consensus.RecordFacts | main.py:383-386 | recording one vote appends a new id to the key order, or keeps the order; it appends the voter, increments the count, and leaves every other id alone |
| Consensus.RecordReply | main.py:380-386 | the loop over one reply's decisions records its votes |
| Consensus.RecordRound | main.py:376-386 | one round records, model by model, the reply of each model that has batch `k` |
| Consensus.Aggregate | main.py:374-389 | the rounds produce the tally of all votes, in round-then-model order |
| Consensus.TallyRecordsVotes | main.py:374-386 | an id is in the tally iff it got a vote, with its voters in order and their number as count |
| Consensus.FirstVoteFacts | main.py:383-384 | the first vote for an id exists iff the id was voted for, and no earlier vote names it |
| Consensus.TallyKeysInFirstVoteOrder | main.py:383-384 | the tally's keys are the voted ids, ordered by their first vote |
| Consensus.AggregatedIdsInRange | main.py:382 | every tallied id indexes an article |
| Consensus.DuplicateIdCountsTwice | main.py:381-386 | a reply naming the same id twice gives it two votes from the same model |
| Consensus.ConsensusIdsContract | main.py:391-392 | an id passes iff it got at least two votes, and the passing ids keep first-vote order |
| Consensus.AggregatedKeysIndexArticles | main.py:382-393 | every tallied id, from any rounds, indexes the article list |
| Consensus.CurateKeysContents | main.py:390-397 | one curated article per passing key, in key order, with its voters, category and reason |
| Consensus.SelectConsensus | main.py:390-397 | the loop over `selections_map` gives the curated list of the tally's keys |
| Consensus.SelectConsensusContents | main.py:390-397 | the final list is exactly the consensus ids, each with its article, voters, "BCS/Bank/GK" and the consensus reason |
| Consensus.TwoVotesSelectOne | main.py:390-397 | of an id voted twice and one voted once, only the first is selected, with both voters |
| Coerce.ParseIntText | main.py:331-332 | defines `int` on a string: strip it, then an optional sign and digits with single underscores between digits |
| Coerce.ParseDecimal | main.py:331-332 | `int` reads back every integer written in decimal |
| Coerce.ParsePadded | main.py:331-332 | whitespace of any length before and after a decimal rendering is ignored |
| Coerce.ParseNegative | main.py:331-332 | a minus and digits read as the negated value |
| Coerce.ParseNonNegative | main.py:331-332 | plain digits read as their value |
| Coerce.NoDigitNoInt | main.py:331-332 | text without a digit is rejected |
| Coerce.ToInt | main.py:331-332 | an int converts to itself; null, lists and objects are rejected |
| Coerce.Iterate | main.py:331 | a list iterates its elements; null, booleans and numbers cannot be iterated |
| Coerce.IterateFacts | main.py:331 | a string iterates its characters; an object iterates its distinct keys in order |
| Coerce.IntListFacts | main.py:331 | the conversion succeeds iff every element converts, and then gives each element's value |
| Json.LookupFacts | main.py:315 | a lookup finds a value iff the key occurs, and the value is that of the last pair carrying the key |
| Json.KeysFacts | main.py:331 | the keys of an object are its distinct keys |
| Clusters.ReplyList | main.py:312-325 | defines the list the validation walks: the reply itself when it is a list, the first wrapper list of a dict, else none |
| Clusters.Judge | main.py:327-335 | defines the verdict on entry `i`: skipped when it is not a dict, lacks `members` or `main`, or they do not convert; fails the call when its `cluster_id` (default `i`) does not convert; else accepted |
| Clusters.ValidateEntries | main.py:326-336 | defines the validated list: the accepted clusters in entry order, or none once an entry fails |
| Clusters.ValidatedClusters | main.py:309-338 | defines what `call_gemini_cluster` returns for a reply |
| Clusters.UnwrapFrom | main.py:312-318 | the list under a wrapper key such that no earlier wrapper key holds a list; none iff no wrapper key holds a list |
| Clusters.WrappedListIsRead | main.py:312-318 | a `clusters` list at the front of an object is read (unless a later `clusters` pair overrides it) |
| Clusters.ValidateFailsExactly | main.py:326-338 | validation returns none iff some convertible entry has a bad `cluster_id` |
| Clusters.ValidateSound | main.py:326-336 | every validated cluster comes from one accepted entry |
| Clusters.ValidateComplete | main.py:326-336 | every convertible entry yields a validated cluster |
| Clusters.ValidateStaysFailed | main.py:335-338 | a failure in a prefix fails the whole reply |
| Clusters.Validate | main.py:326-336 | the loop gives `ValidateEntries` |
| ClusterMap.Grouped | main.py:411-417 | defines the first loop: each cluster with a representative is stored under its id, overwriting in place, and its members are added to `used_ids` |
| ClusterMap.Singletons | main.py:419-422 | defines the second loop: each final id not in `used_ids` gets a singleton under the next id |
| ClusterMap.ClusterMapOf | main.py:409-422 | defines the complete `cluster_map`, with singleton ids starting above the largest cluster id, or at 0 |
| ClusterMap.MainOf | main.py:414-415 | the representative is a member, and there is none iff there are no members |
| ClusterMap.MaxKey | main.py:418 | the largest key, which is one of the keys |
| ClusterMap.NextCid | main.py:418 | the next id is above every existing id |
| ClusterMap.BuildClusterMap | main.py:409-422 | the two loops give `ClusterMapOf` |
| ClusterMap.GroupedValid | main.py:411-417 | the grouped map's key list and key set agree |
| ClusterMap.GroupedMains | main.py:414-416 | every grouped entry's main is one of its members |
| ClusterMap.GroupedUsed | main.py:417 | `used_ids` is exactly the set of ids in some cluster's members |
| ClusterMap.GroupedKeepsClusters | main.py:411-417 | with distinct ids, every cluster with members is in the map with its members |
| ClusterMap.GroupedMembersUsed | main.py:417 | every member of a grouped entry is in `used_ids` |
| ClusterMap.SingletonsFacts | main.py:419-422 | the singleton loop keeps every entry, adds only singletons of unused ids at or above `next`, and adds one for every unused id |
| ClusterMap.EntriesContainTheirMain | main.py:409-422 | the complete map is well formed, and each main is a member |
| ClusterMap.ClustersSurvive | main.py:416-421 | the singletons never overwrite a cluster |
| ClusterMap.UnclusteredGetSingletons | main.py:419-422 | every final id that no cluster mentions gets its own singleton |
| ClusterMap.SingletonIdsAreFresh | main.py:418-422 | singleton ids are above every cluster id |
| ClusterMap.EveryFinalIdIsClustered | main.py:409-422 | with distinct cluster ids, every final id is a member of some entry |
| ClusterMap.EntryMembersComeFrom | main.py:409-422 | every member of an entry is a final id or a member of some cluster |
| ClusterMap.RepeatedIdLosesMember | main.py:412-417 | two clusters with the same id leave the first one's member in no entry |
| Curator.Linked | main.py:430-438 | defines the links of an item: the final article found for each member other than the main, in member order |
| Curator.ItemFor | main.py:425-442 | defines the item of one entry: none when the main is not a final article, else that article with the links and the cluster id |
| Curator.ItemsFrom | main.py:423-443 | defines `clustered_items` for a list of keys |
| Curator.Plain | main.py:403-405 | defines the unclustered items: the final articles as they are |
| Curator.Items | main.py:402-443 | defines the items that are split: the plain list when the clustering gave none or an empty list, else the clustered items |
| Curator.Publish | main.py:398-447 | defines the two feeds: empty without final articles, else the language split of the items |
| Curator.Curation | main.py:368-447 | defines the whole run: tally, consensus, then publishing |
| Curator.FirstWithId | main.py:427 | the index of the first final article with the id, or the length if there is none |
| Curator.FindFinal | main.py:427 | `next(…, None)`: a final article with the id, or none iff no final article has it |
| Curator.LinkSimilar | main.py:430-438 | the loop over the similar ids gives `Linked` |
| Curator.LinkedContents | main.py:430-438 | the links are the final articles found for the other members, and no more links than members |
| Curator.CollectItems | main.py:423-443 | the loop over `cluster_map` gives `ItemsFrom` of its keys |
| Curator.ItemsFromContents | main.py:423-443 | one item per entry whose main is a final article, in key order |
| Curator.ItemForFacts | main.py:425-442 | an item carries its main's final article, its cluster id, and links only to final articles that are members |
| Curator.ItemsAreFinals | main.py:424-443 | every item heads one of the entries |
| Curator.ItemClusterIdsDistinct | main.py:424-442 | no two items carry the same cluster id |
| Curator.EveryFinalIsPublished | main.py:409-443 | with distinct cluster ids and final members, every final article is shown as an item or as a link |
| Curator.ForeignMainDropsMembers | main.py:427-428 | a cluster whose main is not final produces no item, and its final member is lost |
| Curator.UnclusteredUsesFinals | main.py:403-405 | without clusters, the items are the final articles, unchanged and in order |
| Curator.PublishIsPartition | main.py:444-445 | the two feeds are a partition of the items by the language of the title |
| Curator.PublishedAreFinals | main.py:423-445 | every published item and every link is a final article |
| Curator.CurationPublishesConsensus | main.py:374-445 | every published item is a consensus article with its voters, category and reason |
| Curator.RunCuration | main.py:368-447 | the run after the feed is loaded gives `Curation`: two empty feeds without consensus, the plain split without clusters, otherwise the clustered split |

## Left out

- Fetching the feed, writing the XML files, the HTML of the descriptions, the fixed sleeps between calls and rounds (`main.py:387-389`) and the environment checks: these are I/O. An empty feed produces no votes, so `RunCuration` gives two empty feeds, which is the outcome of `main.py:364-367`.
- The pauses of the retry loop are returned as a list of seconds rather than slept.
- Building the requests per provider, and reading the reply text out of each provider's response format (`main.py:207-230`, `241-255`, `275-308`): a reply is modelled by what the extractor made of its text.
- The `content.replace("```json", …)` step before extraction (`main.py:256-257`, `307-308`): it removes fences, which the extractor itself also does; it is folded into the extracted value.
- `json.loads` itself: it is the `parse` oracle. A floating-point value is kept only as what `int` makes of it (`JFloat` holds its truncation toward zero, or none for an infinity or NaN); there is no float arithmetic.
- The regular-expression engine: the two patterns are written out as functions (`RemoveFences`, `Repair`).
- The debugging script `debug_fyra.py` and the `DEBUG` prints.
- Text.RemoveFences: matches `json` case-insensitively for ASCII letters only. Python's `IGNORECASE` also matches the long s `ſ` for `s`; that case is not modelled.
- Coerce.ParseIntText: reads ASCII digits only; Python's `int` also accepts other Unicode decimal digits.
- Coerce.ToInt: a float converts to the truncation it carries, not to a value computed from its digits; a boolean converts to 0 or 1.
- Consensus.ReplyVotes: takes the decisions as integers; a reply listing strings or floats (where Python's comparison `0 <= aid` raises or compares a float) is not modelled.
- Retry.CallModel: requires five outcomes to be given, one per possible attempt; outcomes after the call stops are ignored.
- Language.IsBangla: takes a title string; a missing title (`text or ""`) is the empty string.
- Curator.EveryFinalIsPublished: requires distinct cluster ids and members that are final ids, because without them the code loses articles (see `ClusterMap.RepeatedIdLosesMember` and `Curator.ForeignMainDropsMembers`).
- Concurrency: the source is sequential, and so is the model.
