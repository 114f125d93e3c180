# cpp-search-server in Dafny

A model of a small TF-IDF search server, with proofs about it. The model has four parts:

- **Tokenizer** (`tokenizer.dfy`): the whitespace splitter `SplitIntoWords`. It splits at the space character only.
- **Search server** (`search_server.dfy`, `query.dfy`, `ranking.dfy`):
  - construction from stop words;
  - `AddDocument`, which builds the inverted index (word -> document id -> term frequency), stores each document's rating and status, and records the ids in insertion order;
  - `GetDocumentCount` and `GetDocumentId`;
  - query parsing into plus and minus words;
  - `FindAllDocuments` and the three `FindTopDocuments` overloads;
  - `MatchDocument`.
- **RequestQueue** (`request_queue.dfy`): a window of the last 1440 search requests with a running count of the requests that found nothing.
- **Paginator** (`paginator.dfy`): cutting a range into pages of a given size. It works on positions into a `seq` instead of iterators.

Two support modules model the containers the source relies on:

- `ordered_sets.dfy`: a `std::set` as a strictly increasing sequence under a strict total order.
- `key_orders.dfy`: the order of `std::string` keys (lexicographic) and of `int` keys.

The server is an immutable value. Every operation that can throw in the source returns a `Result` here, with one `Error` constructor per cause. A failed `AddDocument` returns no server, so the caller's server stays as it was. This is the source's guarantee that nothing changes before the checks pass, and it holds by construction.

Term frequencies are exact reals: a document with `n` non-stop words gets `1/n` added once per occurrence of a word. The natural logarithm used for the inverse document frequency is a parameter `ln: real -> real`. Relevance is therefore a real expression over the index, and the proofs say which documents are found and how their relevance is built, not what its numeric value is.

Details of the code the model follows:

- The average rating truncates toward zero. C++ integer division does this, and Dafny's Euclidean `/` does not, so `TruncDiv` writes it out.
- The no-argument `FindTopDocuments` searches only `ACTUAL` documents.
- `ParseQueryWord` never reads `text[1]` of a one-character token: the token `-` is rejected by the first test, and any other single character fails `text[0] == '-'`, which stops the `&&`. So the test for a leading `--` matters only for tokens of two or more characters, and the model's guard `|text| >= 2` is equivalent. An empty token would be accepted as a plain word, but the tokenizer never produces one.
- The code's comparator treats relevances closer than `EPSILON_` as equal and orders such documents by rating. The model ranks by exact relevance, then rating, both descending. Within `EPSILON_` the two orders disagree. With relevances 0.5 + 1e-7 and 0.5 and ratings 1 and 9, the source puts the second document first and the model the first. So both the order and which 5 documents are returned can differ. See "Left out".

## Model

| member | source | states |
|---|---|---|
| Tokenizer.Words | search-server/main.cpp:27-46 | every token is non-empty and holds no space |
| Tokenizer.SplitIntoWords | search-server/main.cpp:27-46 | the single-pass loop with a word accumulator returns exactly the maximal space-free runs of the text, in order |
| Tokenizer.ScanStep | search-server/main.cpp:30-38 | one character of the loop: a space flushes a pending word, a space with no pending word is skipped, any other character extends the pending word |
| Tokenizer.ScanKeepsTokens | search-server/main.cpp:30-38 | one character of the loop keeps its invariant: the words already flushed followed by the tokens of the pending word and the unread text are all the tokens of the text |
| Tokenizer.WordsOfSplit | search-server/main.cpp:31-35 | a space between two texts separates their tokens: the tokens of `a + " " + b` are those of `a` followed by those of `b` |
| Tokenizer.WordsOfWord | search-server/main.cpp:41-43 | a non-empty text with no space is the single token `[text]` |
| Tokenizer.WordsEmptyIffAllSpaces | search-server/main.cpp:27-46 | there are no tokens exactly when the text is empty or all spaces |
| Tokenizer.WordsCoverNonSpace | search-server/main.cpp:30-38 | the tokens glued together are the non-space characters of the text, so their total length is the number of non-space characters |
| Tokenizer.SplitJoinRoundTrip | search-server/main.cpp:27-46 | tokens joined by single spaces split back into the same tokens |
| OrderedSets.Insert | search-server/search_server.cpp:112-114 | inserting into an ordered set keeps it strictly increasing, adds exactly the new element, and changes nothing when it is already there |
| OrderedSets.FromSeq | search-server/search_server.h:167-168 | building a set from a sequence gives a strictly increasing sequence of exactly its elements |
| OrderedSets.IncreasingUnique | search-server/search_server.h:167-168 | two strictly increasing sequences with the same elements are equal, so a set has one representation |
| OrderedSets.Filter | search-server/search_server.cpp:42-49 | keeping the elements that satisfy a test keeps exactly those elements |
| OrderedSets.FilterIncreasing | search-server/search_server.cpp:42-49 | keeping some elements of an increasing sequence leaves it increasing |
| KeyOrders.Less | search-server/search_server.h:111-112 | the order `std::less<std::string>` keeps the stop-word set and the index in: lexicographic by character, with a proper prefix first; a definition, whose order properties `LessIsStrictTotalOrder` states |
| KeyOrders.LessIsStrictTotalOrder | search-server/search_server.h:111-112 | lexicographic order on strings, the key order of the stop-word set and the index, is irreflexive, transitive and total |
| KeyOrders.IntLessIsStrictTotalOrder | search-server/search_server.h:113 | the order on document ids is a strict total order |
| SearchServer.IsValidWord | search-server/search_server.cpp:66-71 | a definition: a word is valid when none of its characters is below `' '`; `NoStopFrom`, `NewServer` and `ParseQueryWord` state where it decides failure |
| SearchServer.IsStopWord | search-server/search_server.cpp:62-64 | a definition: membership in the stop-word set; `WithoutStopWordsKeeps` and `ParseQuery` state its effect on documents and queries |
| SearchServer.NewServer | search-server/search_server.h:11-18 | construction succeeds exactly when no stop word has a control character and otherwise fails with `InvalidStopWord`; the new server satisfies the class invariant, is empty, and its stop words are the non-empty ones given |
| SearchServer.NewServerFromText | search-server/search_server.cpp:5-8 | construction from text succeeds exactly when its tokens are valid, and the stop words are exactly those tokens |
| SearchServer.NoStopFrom | search-server/search_server.cpp:75-82 | the token loop fails exactly when some token has a control character, with `InvalidDocumentWord`; otherwise it keeps the non-stop tokens in order |
| SearchServer.SplitIntoWordsNoStop | search-server/search_server.cpp:73-84 | a document's words are its tokens without stop words, in order; it fails exactly when a token has a control character |
| SearchServer.WithoutStopWordsKeeps | search-server/search_server.cpp:79-81 | every kept word is a token that is not a stop word, and every non-stop token is kept as often as it occurs |
| SearchServer.TruncDiv | search-server/search_server.cpp:90 | C++ integer division: the quotient's magnitude is the floor of `|a| / b` and its sign follows `a` |
| SearchServer.ComputeAverageRating | search-server/search_server.cpp:86-91 | 0 for no ratings; otherwise the sum divided by the count, truncated toward zero |
| SearchServer.AddPostings | search-server/search_server.cpp:23-25 | after indexing, a word's posting list holds the document exactly when it did before or the word is one of the document's words |
| SearchServer.FrequencyStep | search-server/search_server.cpp:21 | the per-occurrence step is the reciprocal of the word count: positive and times `n` exactly 1 when there are words, and 0 (never used) when there are none |
| SearchServer.AddPostingsTf | search-server/search_server.cpp:21-25 | each word's frequency for the document grows by its number of occurrences times the per-word step |
| SearchServer.AddPostingsFrame | search-server/search_server.cpp:23-25 | indexing a document creates posting lists only for its own words and leaves every other document's entries and frequencies unchanged |
| SearchServer.AddDocument | search-server/search_server.cpp:10-29 | fails with `NegativeId` for a negative id, with `DuplicateId` for a stored id and with `InvalidDocumentWord` for a token with a control character, and succeeds otherwise; on success the invariant holds, the stop words are kept, the id is appended to the insertion order, the average rating and status are stored, and the index gains the document's words |
| SearchServer.AddKeepsValid | search-server/search_server.cpp:20-28 | adding a fresh document keeps the class invariant: stored, distinct, non-negative ids and non-empty posting lists of valid non-stop words |
| SearchServer.GetDocumentCount | search-server/search_server.cpp:31-33 | the number of stored documents equals the number of ids added |
| SearchServer.GetDocumentId | search-server/search_server.cpp:35-37 | returns the id at an insertion position and fails with `IndexOutOfRange` for any position outside `[0, count)`, negative ones included |
| SearchServer.GetDocumentIdAfterAdd | search-server/search_server.cpp:27-28 | after a successful add the count grows by one, the new id sits at the old count, and earlier positions are unchanged |
| SearchServer.AddDocumentTermFrequencies | search-server/search_server.cpp:20-25 | after a successful add the document is posted under exactly its non-stop words, each with frequency (occurrences) / (number of non-stop words), and no other document's postings change |
| SearchServer.IndexDocumentFrequencies | search-server/search_server.cpp:21-25 | indexing a fresh document's words with step `1/n` gives each word frequency (occurrences) / n and leaves other documents alone |
| SearchServer.TermFrequenciesSumToOne | search-server/search_server.cpp:20-25 | a document with at least one non-stop word has frequencies that sum to exactly 1 over its distinct words |
| SearchServer.FrequenciesSumToOne | search-server/search_server.cpp:21-25 | the frequencies `AddPostings` gives a fresh document's words sum to 1 over its distinct words |
| QueryParser.IsMalformed | search-server/search_server.cpp:96-98 | a definition of the rejected tokens: a lone `-`, a token with a control character, a token starting with `--`; `ParseQueryWord` states that exactly these fail |
| QueryParser.NoneMalformed | search-server/search_server.cpp:108-109 | a definition: no token of the query is malformed; `ParseTokens` and `ParseQuery` state that parsing succeeds exactly then |
| QueryParser.ParseQueryWord | search-server/search_server.cpp:93-104 | rejects exactly a lone `-`, a token with a control character and a token starting with `--`, with `InvalidQuery`; otherwise removes one leading `-` exactly when present and marks the word as minus, so no parsed word is empty or starts with `-` |
| QueryParser.AddWord | search-server/search_server.cpp:110-116 | a stop word is dropped; any other word goes into the minus set when marked and into the plus set otherwise, and both sets stay ordered |
| QueryParser.ParseTokens | search-server/search_server.cpp:106-119 | the loop fails exactly when some token is malformed; otherwise the plus and minus sets gain exactly the non-stop plus and minus terms of the tokens |
| QueryParser.ParseQuery | search-server/search_server.cpp:106-119 | parsing fails exactly when a token is malformed; otherwise the plus set holds the non-stop tokens without a leading `-`, the minus set holds the non-stop tokens with one (marker removed), and every word in them is valid, non-empty, has no leading `-` and is not a stop word |
| QueryParser.ParsedWordsWellFormed | search-server/search_server.cpp:96-103 | every word of a parsed query is non-empty, valid, does not start with `-` and is not a stop word |
| QueryParser.PlusAndMinusNotReconciled | search-server/search_server.cpp:110-116 | for any parsed word `w`, the query `w -w` has `w` both as a plus and as a minus word |
| Ranking.PostingNonEmpty | search-server/search_server.cpp:121-123 | an indexed word's posting list is never empty, so the IDF quotient is defined |
| Ranking.Idf | search-server/search_server.cpp:121-123 | a definition: `ln` of the document count over the posting-list size; `PostingNonEmpty` states the quotient is defined |
| Ranking.ScoreOne | search-server/search_server.h:201-203 | a definition of one posting: an accepted document's score grows by tf times idf, and a rejected one is left alone; `PostingStep` states its effect |
| Ranking.PostingIds | search-server/search_server.h:200 | the ids of a word's posting list in the map's increasing order, each once, and exactly the ids of the posting list |
| Ranking.AddPostingScores | search-server/search_server.h:200-204 | the loop over a list of posting ids scores exactly the accepted ids of the list on top of the earlier scores, adding each one's contribution once, and leaves every other score unchanged |
| Ranking.PostingStep | search-server/search_server.h:200-204 | one posting of the loop: if the rest of the list has the loop's facts, the whole list has them |
| Ranking.WordScores | search-server/search_server.h:196-204 | for an indexed word, the loop over its posting list scores exactly the accepted documents that hold the word, each with its contribution |
| Ranking.AddWordScores | search-server/search_server.h:196-204 | one plus word gives its contribution to exactly the accepted documents in its posting list, and every other score is unchanged; a word missing from the index changes nothing |
| Ranking.AddPlusScores | search-server/search_server.h:195-205 | a definition: the plus-word loop, one `AddWordScores` per word; `AddPlusScoresSpec` states what it scores |
| Ranking.AddPlusScoresSpec | search-server/search_server.h:195-205 | the plus-word loop scores exactly the accepted documents that hold a plus word, each with its full relevance |
| Ranking.RemoveMinusScores | search-server/search_server.h:207-214 | a definition: the minus-word loop, erasing each posting of each indexed minus word; `RemoveMinusScoresSpec` states what it keeps |
| Ranking.RemoveMinusScoresSpec | search-server/search_server.h:207-214 | the minus-word loop keeps exactly the scored documents that hold no minus word, with their scores |
| Ranking.ScoreQuery | search-server/search_server.h:194-214 | a definition: the plus loop from no scores, then the minus loop; `ScoreQuerySpec` states the candidates it scores |
| Ranking.ScoreQuerySpec | search-server/search_server.h:194-214 | the scored documents are exactly the candidates, meaning stored, accepted by the predicate, holding a plus word and no minus word, each scored with its relevance |
| Ranking.AscendingIds | search-server/search_server.h:217 | the scored ids come in strictly increasing order, each exactly once |
| Ranking.ToDocuments | search-server/search_server.h:216-220 | one result per id, carrying its score and its stored rating |
| Ranking.ResultsOfScores | search-server/search_server.h:216-221 | the results list every scored id exactly once, in increasing order, with its score, and none when nothing was scored |
| Ranking.FindAllDocuments | search-server/search_server.h:191-222 | every result is a candidate and every candidate is a result, ids strictly increase (so each appears once), ratings are the stored ones, relevance is the sum of tf times idf over the plus words, and an empty plus set finds nothing |
| Ranking.FindAllDocumentsFacts | search-server/search_server.h:191-222 | the same facts about the retrieval the search returns |
| Ranking.InsertByRank | search-server/search_server.h:50-57 | inserting into a rank-sorted list keeps it sorted and adds exactly that document |
| Ranking.SortByRank | search-server/search_server.h:50-57 | the sorted list is a permutation of the input, ordered by relevance and then rating, both descending |
| Ranking.FindTopDocuments | search-server/search_server.h:45-62 | fails exactly when the query does not parse, with `InvalidQuery`; otherwise returns `min(5, found)` of the documents `FindAllDocuments` finds, sorted by rank, and no dropped document ranks above a returned one |
| Ranking.TruncatedRanking | search-server/search_server.h:58-60 | truncating a sorted list to 5 keeps a sorted sub-multiset, and nothing dropped ranks above anything kept |
| Ranking.TopDocumentsAreCandidates | search-server/search_server.h:47-48 | every top document is a candidate of the parsed query with its stored rating and relevance |
| Ranking.StatusFilterSelects | search-server/search_server.h:64-69 | the status predicate selects exactly the unfiltered candidates with that status |
| Ranking.FindTopDocumentsByStatus | search-server/search_server.h:64-69 | the status overload is the predicate search with the status test, and every result has that status |
| Ranking.FindTopDocumentsDefault | search-server/search_server.h:71-73 | the overload without a filter is the status overload with `ACTUAL`, so every result is `ACTUAL` |
| Ranking.MatchDocument | search-server/search_server.cpp:39-60 | fails with `InvalidQuery` for a malformed query and then with `UnknownDocument` for an unknown id; otherwise returns the document's status and, in increasing order without duplicates, the plus words indexed for it, or no words when a minus word is indexed for it |
| Ranking.MinusHitOfQuery | search-server/search_server.cpp:50-58 | the minus loop finds a hit exactly when some minus term of the raw query is indexed for the document |
| Ranking.AnyHitOfElems | search-server/search_server.cpp:42-49 | whether a document holds a word of an ordered set depends only on the set's elements |
| Ranking.MatchIsCandidate | search-server/search_server.cpp:39-60 | a stored document matches some word exactly when it is a candidate of the unfiltered search |
| Ranking.MatchAgreesWithSearch | search-server/search_server.cpp:39-60 | a stored document matches some word of a query exactly when the unfiltered search of that query finds it |
| Ranking.MinusWordExcludes | search-server/search_server.h:207-214 | a document holding a minus word is never returned, whatever the predicate, and matches no word |
| RequestQueues.NewRequestQueue | search-server/request_queue.cpp:3-7 | a fresh queue has no requests, a zero counter and a zero clock, and satisfies the invariant |
| RequestQueues.Record | search-server/request_queue.h:42-52 | recording a request drops the oldest entry only when the window is full, so the window is the last 1440 entries and the counter counts its empty results |
| RequestQueues.RecordIsWindow | search-server/request_queue.h:42-48 | dropping the front of a full window and appending is taking the last 1440 of the window plus the new entry |
| RequestQueues.AddFindRequest | search-server/request_queue.h:36-54 | returns exactly the server's `FindTopDocuments` result; the clock advances by one modulo 2^64 even when the query fails; a failed query leaves the window and counter unchanged; a successful one is appended to the window |
| RequestQueues.GetNoResultRequests | search-server/request_queue.cpp:9-11 | the counter equals the number of remembered requests that found nothing, and 0 <= counter <= size <= 1440 |
| RequestQueues.RecordAll | search-server/request_queue.h:42-52 | any sequence of recordings keeps the invariant: at most 1440 entries, the counter agrees, and the clock fits in 64 bits |
| RequestQueues.WindowOfWindow | search-server/request_queue.h:42-52 | windowing and then appending and windowing again is the same as appending and windowing once |
| RequestQueues.RecordAllIsWindow | search-server/request_queue.h:42-52 | after any history of requests the window holds exactly the last min(k, 1440) of them in call order, and the counter counts its empty results |
| Paginators.PageCountIsCeiling | search-server/paginator.h:38-43 | the page count is `n / k` rounded up: that many pages of `k` hold `n` items, and one fewer page does not |
| Paginators.Paginator | search-server/paginator.h:36-44 | the pages tile the range; each page is non-empty, holds at most `pageSize` items and records its size as end minus begin; every page but the last is full; the pages flattened give the range exactly; there are `PageCount` pages, which is the ceiling of size over page size; an empty range gives no pages |
| Paginators.NextPage | search-server/paginator.h:39-42 | one page of the loop starts where the loop stands, ends inside the range, records its size, holds at most `pageSize` items, and holds fewer only when it reaches the end |
| Paginators.LoopIterations | search-server/paginator.h:38-43 | up to `k` iterations of the loop, for any page size, stay inside the range |
| Paginators.ZeroPageSizeNeverEnds | search-server/paginator.h:38-43 | with a page size of 0 on a non-empty range, after any number `k` of iterations the loop still stands at its start and has pushed `k` empty pages, so it never ends |
| Paginators.PositivePageSizeEnds | search-server/paginator.h:38-43 | with a positive page size, `PageCount` iterations bring the loop to the end of the range |
| Paginators.AppendPageTiles | search-server/paginator.h:39-42 | one loop step keeps the pages contiguous, non-empty and full except at the end, and uses up exactly one page of the count |
| Paginators.AppendPageItems | search-server/paginator.h:39-42 | one loop step extends the flattened pages by exactly the items of the new page |
| Paginators.AllButLastFull | search-server/paginator.h:39-42 | in a tiling where only a page reaching the end may be short, every page but the last is full |
| Paginators.Paginate | search-server/paginator.h:69-72 | paginating a container is paginating its whole range: the pages flattened give the container back |

## Left out

- Console I/O: `ReadLine`, `ReadLineWithNumber`, `CreateSearchServer`, `main`, and the `operator<<` overloads for documents and pages. They only read and format text.
- The older `SearchServer` class in `main.cpp` (lines 53-165). It is a superseded copy without validation or ratings. Only `SplitIntoWords` and `MAX_RESULT_DOCUMENT_COUNT` come from that file.
- Floating point: term frequencies and relevances are exact reals. The rounding of repeated `1.0 / n` additions and of products with the IDF is not modelled.
- `std::log` is the parameter `ln`: nothing is proved about its values, so the model says nothing about the numeric order of relevances.
- Ranking.SortByRank: compares relevances exactly instead of with `EPSILON_`. Where two relevances differ by less than `EPSILON_`, the source orders by rating and the model by relevance, so the two orders can differ. Where the within-`EPSILON_` relation is not transitive, the source comparator is not a strict weak ordering and `std::sort` promises no order at all. Documents with equal relevance and rating come out in one fixed order, while `std::sort` may use any order.
- Ranking.FindTopDocuments: the ranking facts hold for the exact order above, not for the `EPSILON_` comparator. With more than 5 results, the 5 documents kept can differ from the source's when relevances differ by less than `EPSILON_`.
- SearchServer.ComputeAverageRating: the sum is a mathematical integer. The overflow of `std::accumulate` on `int` for very large sums is not modelled.
- SearchServer.GetDocumentCount: the `static_cast<int>` of the store's size is not modelled as a 32-bit truncation.
- SearchServer.UniqueNonEmpty: `MakeUniqueNonEmptyStrings` is declared in `string_processing.h` without a body, so its meaning is taken from its name: the distinct non-empty strings. Its contract is that definition; the fact callers rely on is stated by `NewServer`.
- The `AddFindRequest` overloads taking a status or nothing are declared in `request_queue.h` without a body, so only the predicate version is modelled.
- The queue holds the server by `const` reference. In the model, each request takes the server as an argument and returns none, so it cannot change it.
- Paginators.Paginator: requires `pageSize > 0` for a non-empty range, because the source loops forever with a page size of 0 (see "Findings"); `LoopIterations` models that case.
- Paginators.Paginate: requires `pageSize > 0` for a non-empty container, for the same reason as `Paginator`, which it calls.
- The `IteratorRange` accessors `begin`, `end` and `size` are the fields of the `IteratorRange` datatype. The `Paginator` accessors are the sequence of pages.
- Characters are Unicode code points, and `IsValidWord` rejects those below `' '`. The source tests a possibly signed `char`, so it accepts bytes from 0x80 up, which the model also accepts.

## Findings

| source | as written | input that shows it | evidently intended | confidence | as-written member | corrected member |
|---|---|---|---|---|---|---|
| search-server/paginator.h:38-43 | with `page_size == 0` each iteration pushes an empty page and advances by 0, so on a non-empty range the loop never ends and `pages_` grows without bound | `Paginate(c, 0)` with `c` non-empty | a page size of at least 1, so the loop ends after `ceil(n / page_size)` pages | not executed | Paginators.ZeroPageSizeNeverEnds | Paginators.Paginator |
