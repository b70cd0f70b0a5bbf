# search-server in Dafny

A model of a small in-memory full-text search engine and two helpers built
around it:

- **The search server** (`search_server.dfy`, with `text.dfy`, `sums.dfy`
  and `documents.dfy`). It validates and stores stop words, adds documents
  into an inverted index (word → document → term frequency), parses queries
  into plus and minus words, selects and ranks documents by TF-IDF, keeps
  the top five, and reports the query words that one document holds.
  - The `SearchServer` class keeps the three tables the source updates in
    place: the index, the document table and the list of ids.
  - Its invariant (`Valid`) ties the index to the non-stop words of every
    added document.
  - `AddDocument` preserves that invariant and changes nothing when it
    fails.
  - The searches are proved to select exactly the documents that hold a
    plus word, pass the caller's filter and hold no minus word, each with
    its relevance.
- **The request queue** (`request_queue.dfy`). It is a wrapper that sends
  searches to the server:
  - it counts calls on a 1440-minute day clock;
  - it keeps the searches that found nothing;
  - it forgets at most one entry from an earlier day per call.
- **The paginator** (`paginator.dfy`). It cuts a sequence into pages of
  index ranges.
  - The loop is modelled as written. The closed form of its output is
    proved, including the elements it loses.
  - The corrected loop is proved to cut the whole input into consecutive
    pages.

Exceptions thrown by the source become `Result`/`Outcome` values with an
`Error` kind. `InvalidArgument` stands for `std::invalid_argument` and
`OutOfRange` for the `std::out_of_range` thrown by `at()`.

The constructors that throw become factory methods:
- `NewSearchServer` for a container of stop words;
- `NewSearchServerFromText` for a stop-word text.

The class constructor itself requires stop words that are already
validated.

Where the code and a natural reading of its intent differ, the model
follows the code:
- **Average rating.** The average truncates toward zero, as C++ `int`
  division does; it is not rounded down.
- **Minus words.** Their syntax is checked after stop words have been
  dropped. A token `--x` is therefore accepted when `-x` is a stop word.

## Model

| member | source | states |
|---|---|---|
| Text.SplitIntoWords | search-server/main.cpp:30-48 | the tokens are exactly `Words(text)`, the maximal space-free runs of the text in order; every token is non-empty and contains no space |
| Text.IsValidWord | search-server/main.cpp:231-235 | a word or text is valid iff every character is at or above the space, that is, none is a control character |
| Text.WordsAreNonEmptyRuns | search-server/main.cpp:30-48 | leading, trailing or repeated spaces produce no empty token: every token is a non-empty, space-free string |
| Text.WordsOfSpaceJoin | search-server/main.cpp:33-38 | no token crosses a space: the tokens of `a + " " + b` are the tokens of `a` followed by those of `b` |
| Text.WordsOfRun | search-server/main.cpp:43-45 | a pending non-empty run at the end of the text is emitted as one token |
| Text.LexLessIrreflexive | search-server/main.cpp:262-263 | the order of the query's ordered word sets is irreflexive |
| Text.LexLessTransitive | search-server/main.cpp:262-263 | that order is transitive |
| Text.LexLessTotal | search-server/main.cpp:262-263 | any two different words are ordered one way or the other |
| Text.MinWord | search-server/main.cpp:176 | the word an ascending iteration visits next: a member of the set that is below every other member |
| Sums.RepeatedShare | search-server/main.cpp:110-112 | adding `1/n` once per occurrence, `k` times, gives `k/n`: the accumulated term frequency is occurrences over word count |
| Sums.SharesSum | search-server/main.cpp:111-112 | over all words of a document, the accumulated shares add up to one share per word occurrence |
| Sums.WholeShare | search-server/main.cpp:110 | `n` shares of `1/n` add up to one |
| Documents.DivTruncate | search-server/main.cpp:241 | the quotient of C++ `int` division: rounded toward zero, bracketed from above for negative dividends and from below otherwise |
| Documents.Sum | search-server/main.cpp:241 | the sum of the ratings from an initial 0, added from the left as `accumulate` does |
| Documents.ComputeAverageRating | search-server/main.cpp:237-242 | zero for no ratings; otherwise the sum over the count truncated toward zero, for either sign of the sum |
| Documents.AverageRatingTruncatesTowardZero | search-server/main.cpp:241 | `[-7, -2, -7]` averages to -5, not -6; `[7, 2, 7]` averages to 5 |
| Documents.RanksBefore | search-server/main.cpp:134-140 | the sort's comparison: `lhs` goes first iff its relevance is higher by at least the tolerance `1e-6`, or, when the relevances are closer than that, its rating is higher |
| Documents.InsertKeepsPermutation | search-server/main.cpp:133-140 | inserting the next result anywhere keeps a permutation of the results seen so far and keeps ids distinct |
| Documents.SortByRank | search-server/main.cpp:133-140 | the sorted results are a permutation of the input, with ids as distinct as before |
| Documents.SortAndTruncate | search-server/main.cpp:133-143 | at most five results, exactly `min(n, 5)`, each taken from the input without repetition |
| Server.RemoveStopWords | search-server/main.cpp:221-229 | keeps exactly the words that are not stop words, each as often as in the input, never more words than the input |
| Server.SearchServer.constructor | search-server/main.cpp:75-77 | an empty server (no index, no documents, no ids) that keeps the given stop words and satisfies the index invariant |
| Server.SearchServer.IsStopWord | search-server/main.cpp:217-219 | a word is a stop word iff it is in the stop-word set |
| Server.SearchServer.SplitIntoWordsNoStop | search-server/main.cpp:221-229 | the tokens of the text without the stop words, in order; each is non-empty and not a stop word |
| Server.SearchServer.GetDocumentCount | search-server/main.cpp:154-156 | the number of documents equals the number of ids added |
| Server.SearchServer.GetDocumentId | search-server/main.cpp:158-160 | the id added at a position, for `0 <= index < count`, which is a stored document; `OutOfRange` for every other index |
| Server.SearchServer.IdAppended | search-server/main.cpp:108 | after an id is appended to a valid server, the count is one more and the id at the last position is the new one |
| Server.SearchServer.AddDocument | search-server/main.cpp:95-115 | fails with `InvalidArgument` and changes nothing iff the text holds a control character, the id is negative or the id is taken; on success the id is appended, the count grows by one, the last id is the new one, the data holds the average rating and status, the document's words are its non-stop tokens, the index invariant is kept, and no other document's postings change |
| Server.SearchServer.StoreDocument | search-server/main.cpp:106-114 | the successful path: id appended, data stored, the words recorded, the invariant kept, the other documents' postings unchanged |
| Server.SearchServer.StoredDocumentValid | search-server/main.cpp:108-114 | after the three tables are updated, the index invariant holds again and the other documents keep their postings |
| Server.SearchServer.IndexWords | search-server/main.cpp:110-113 | after the loop, every word of the document lists it with its occurrence count times `1/n`; every older posting is kept unchanged |
| Server.PartlyIndexedStep | search-server/main.cpp:111-112 | one more `+=` on the index keeps the loop invariant: older postings kept, the words so far counted |
| Server.IndexedDocument | search-server/main.cpp:110-113 | once all words are indexed, the index lists exactly the (word, document) pairs of the documents' words with their term frequencies, and no posting list is empty |
| Server.AddedDocumentState | search-server/main.cpp:102-114 | adding a fresh non-negative id with its words indexed keeps the whole server invariant: unique ids, ids equal to the table keys, index matching the words |
| Server.FrequenciesOfWordsSumToOne | search-server/main.cpp:110-113 | if a document's postings are exactly its words with their term frequencies, those frequencies sum to one |
| Server.SearchServer.TermFrequenciesSumToOne | search-server/main.cpp:110-113 | in a valid server the term frequencies of a document with at least one non-stop word sum to one |
| Server.SearchServer.ComputeWordInverseDocumentFreq | search-server/main.cpp:281-286 | the IDF of an indexed word: 0 for an empty posting list, otherwise `ln` of the number of documents over the number of documents listed for the word |
| Server.SearchServer.InverseDocumentFreqRatio | search-server/main.cpp:281-286 | in a valid server each posting list has between 1 and `GetDocumentCount()` entries, so the ratio inside the logarithm is at least one; it equals the count iff every document holds the word |
| Server.SearchServer.PostingsAreDocuments | search-server/main.cpp:297-298 | every id in a posting list is a stored document, so the lookup of its data never fails |
| Server.SearchServer.ParseQueryWord | search-server/main.cpp:250-259 | a token is a minus word iff it starts with the minus marker; the data is the token with exactly that one marker removed, so marker plus data gives back the token; the stop-word flag is about the stripped data |
| Server.SearchServer.QueryWords | search-server/main.cpp:250-279 | a plus word is a token without a leading minus that is not a stop word; a minus word is a token with one leading minus stripped, that is not a stop word after stripping |
| Server.SearchServer.ParseQuery | search-server/main.cpp:266-279 | the loop builds exactly the plus and minus word sets of the query text |
| Server.SearchServer.QueryValidity | search-server/main.cpp:120-129 | a query is accepted iff it holds no control character and every token that starts with a minus has more text and, if that text starts with a second minus, the text after the first minus is a stop word |
| Server.SearchServer.CheckMinusWords | search-server/main.cpp:125-129 | passes iff no minus word is empty or starts with a minus |
| Server.SearchServer.AddWordRelevance | search-server/main.cpp:296-302 | adds TF times IDF of one plus word to exactly the documents holding it that pass the filter; every other entry is untouched |
| Server.SearchServer.ContributionsStep | search-server/main.cpp:300 | the relevance for one more word grows by that word's TF-IDF iff the document holds the word |
| Server.SearchServer.PlusRelevanceStep | search-server/main.cpp:292-303 | after each plus word the map holds exactly the filtered documents holding a word seen so far, each with its relevance for those words |
| Server.SearchServer.CollectPlusWords | search-server/main.cpp:291-303 | the first phase: the map holds exactly the documents that pass the filter and hold a plus word, each with its relevance |
| Server.SearchServer.RemoveWordDocuments | search-server/main.cpp:309-313 | erases exactly the documents that hold the word; the other entries keep their values |
| Server.SearchServer.RemoveMinusWords | search-server/main.cpp:305-314 | erases exactly the documents that hold any minus word, whatever the filter says; the others keep their values |
| Server.SearchServer.SelectedIsFinalRelevance | search-server/main.cpp:289-314 | after both phases the map's keys are exactly the selected documents, each with its relevance |
| Server.MinId | search-server/main.cpp:317 | the least id of a non-empty set: the entry an ascending walk over the id-keyed map visits next |
| Server.SearchServer.ListedStep | search-server/main.cpp:317-320 | visiting the least id still to visit adds a result above all earlier ones and keeps the results listed so far as entries of the map with their relevance and rating |
| Server.SearchServer.ToDocuments | search-server/main.cpp:316-321 | one result per map entry, with that entry's relevance and the stored rating, in strictly ascending id order as the walk over the map gives them; no id twice |
| Server.SearchServer.FindAllDocuments | search-server/main.cpp:289-322 | the results are exactly the selected documents, each once, with relevance and rating, in strictly ascending id order |
| Server.SearchServer.FindTopDocuments | search-server/main.cpp:117-145 | fails with `InvalidArgument` iff the query is invalid; otherwise returns `min(selected, 5)` distinct selected documents with their relevance and rating |
| Server.SearchServer.FindTopDocumentsByStatus | search-server/main.cpp:147-152 | the same outcome as the search with the filter "status equals the given one", `Actual` by default |
| Server.StatusIs | search-server/main.cpp:150-151 | the overload's filter accepts a document iff its status is the given one, ignoring id and rating |
| Server.SearchServer.FewSelectedAllReturned | search-server/main.cpp:141-143 | when at most five documents are selected, the result holds every one of them |
| Server.SearchServer.PlusWordsOf | search-server/main.cpp:175-183 | the plus words the document holds, in strictly ascending order, and no others |
| Server.SearchServer.HoldsMinusWord | search-server/main.cpp:184-192 | true iff the document holds some minus word |
| Server.SearchServer.MatchDocument | search-server/main.cpp:162-194 | fails with `InvalidArgument` for an invalid query, otherwise with `OutOfRange` for an unknown id; else returns the stored status and, in ascending order, the plus words the document holds, or none when it holds a minus word |
| Server.MakeUniqueNonEmptyStrings | search-server/main.cpp:206-215 | the set of distinct non-empty strings of the input |
| Server.NewSearchServer | search-server/main.cpp:75-83 | succeeds iff no non-empty stop word holds a control character (else `InvalidArgument`), giving an empty valid server whose stop words are the distinct non-empty inputs |
| Server.NewSearchServerFromText | search-server/main.cpp:85-93 | succeeds iff every token of the text is valid (else `InvalidArgument`), giving an empty valid server, with an empty index and the given logarithm, whose stop words are the tokens of the text |
| Requests.TimeAfter | search-server/request_queue.h:18-22 | the minute after `k` calls: 0 iff no call was made, never above 1440 |
| Requests.DayAfter | search-server/request_queue.h:18-22 | the day after `k` calls, starting at 1 |
| Requests.ClockStep | search-server/request_queue.h:18-22 | one call moves the minute on by one, or from 1440 back to 1 while the day grows by one |
| Requests.SecondDayStartsAtCall1441 | search-server/request_queue.h:18-22 | the 1440th call is still minute 1440 of day 1; the 1441st is minute 1 of day 2 |
| Requests.Evict | search-server/request_queue.h:24-26 | the queue is kept or loses only its front entry; it loses it iff it is non-empty and the front entry is from an earlier day |
| Requests.EvictAsWritten | search-server/request_queue.h:24-26 | the test as written is undefined exactly on an empty queue and agrees with `Evict` otherwise |
| Requests.EvictKeepsOrder | search-server/request_queue.h:24-26 | dropping the front entry on a later or equal day keeps days non-decreasing and none after the current day |
| Requests.PushKeepsOrder | search-server/request_queue.h:29-31 | appending an entry of the current day keeps that order |
| Requests.RequestQueue.constructor | search-server/request_queue.h:12-13 | wraps the given server with no entries, minute 0 and day 1 |
| Requests.RequestQueue.NextMinute | search-server/request_queue.h:18-26 | the clock moves on one call, in step with the call count, within 1..1440; the queue is evicted as `Evict` says and stays in day order |
| Requests.RequestQueue.KeepIfEmpty | search-server/request_queue.h:29-31 | an entry tagged with the current day is appended iff the result is an empty success |
| Requests.RequestQueue.AddFindRequest | search-server/request_queue.h:15-33 | returns exactly the server's search outcome and leaves the server unchanged; the minute is in 1..1440 and follows the call count; the queue is evicted and then grows iff the result is empty; the days stay ordered and the entries never outnumber the calls |
| Requests.RequestQueue.AddFindRequestByStatus | search-server/request_queue.cpp:3-8 | behaves as the filtered call with the filter "status equals the given one", `Actual` by default |
| Requests.RequestQueue.FirstRequestReadsEmptyFront | search-server/request_queue.h:24 | a valid queue that has served no search is empty, so the test as written is undefined on its first search |
| Requests.RequestQueue.GetNoResultRequests | search-server/request_queue.cpp:11-13 | the number of kept entries, which never exceeds the number of calls; reads only |
| Pagination.FullPages | search-server/paginator.h:15-19 | the pages closed at full offsets: page `i` runs from `i * pageSize` to `(i + 1) * pageSize` |
| Pagination.PagesOrdered | search-server/paginator.h:14-26 | with page size at least 1: no pages iff the input is empty; every page holds 1 to `pageSize` elements; every page but the last holds exactly `pageSize`; the pages are in input order without overlap; the last ends at the end |
| Pagination.ShortInputOnePage | search-server/paginator.h:21-23 | a non-empty input no longer than a page gives exactly one page covering all of it |
| Pagination.PagesCoverage | search-server/paginator.h:14-26 | an index is in some page iff it lies before the end of the full pages or at or after the start of the last page |
| Pagination.PagesLoseElements | search-server/paginator.h:21-23 | four elements in pages of three give the single page [1, 4); index 0 is in no page |
| Pagination.Paginator.constructor | search-server/paginator.h:10-27 | the loop as written produces exactly `Pages(n, pageSize)` |
| Pagination.Paginate | search-server/paginator.h:38-41 | a fresh paginator over the indices of the container |
| Pagination.CorrectedPaginate | search-server/paginator.h:14-26 | the loop with its last test corrected produces `CorrectPages(n, pageSize)` |
| Pagination.CorrectPagesPartition | search-server/paginator.h:14-26 | the corrected pages start at 0, meet without gaps, and otherwise have the same properties as `PagesOrdered` |
| Pagination.CorrectPagesCover | search-server/paginator.h:14-26 | every index of the input lies in a corrected page |

## Left out

- Console I/O: `ReadLine`, `ReadLineWithNumber`, `PrintDocument` and `main` are not modelled.
- `search-server/document.cpp` (the output operator) and `search-server/iterator_range.h` are not part of this model. `Document` is a plain datatype, and a page is a pair of indices rather than an iterator range.
- `search_server.h` and `document.h` are not part of the sources shown. The request queue wraps the `SearchServer` class of `main.cpp`.
- Floating point:
  - term frequencies and relevances are exact reals;
  - the logarithm of the inverse document frequency is a function value `ln` given to the server at construction, with no properties assumed;
  - no concrete relevance value is proved, and neither is the numeric effect of the `1e-6` tolerance.
- Documents.SortByRank: proves only that the output is a permutation with ids kept distinct, not the order. The comparison with a tolerance is not a strict weak order, so `std::sort` promises no particular order. The sort is an insertion sort on a sequence value, not an in-place sort of the vector.
- Documents.SortAndTruncate: states the kept results as a sub-multiset of the right size, which is what "a prefix of some permutation" amounts to; which results are kept depends on the unproved order.
- Integer widths are not modelled. The model leaves out `int` overflow in the sum of the ratings and in the id, and the `size_t`/`int` conversions of the counters and of the page size.
- Iteration order of sets and maps: where the order cannot change the result, loops take elements in any order. This covers the plus-word and minus-word loops of `FindAllDocuments`, which build and erase map entries; the minus-word checks; `HoldsMinusWord`; and the stop-word checks of the constructors. Where the order shows in the result, the ascending order is modelled: the results of `FindAllDocuments` come in ascending id order, and `MatchDocument`'s plus words in ascending word order.
- Templates become function values. The document predicate is a value of type `(int, DocumentStatus, int) -> bool`, and the stop-word container is a sequence of strings.
- Helper methods: `StoreDocument`, `IndexWords`, `CollectPlusWords`, `RemoveMinusWords`, `ToDocuments`, `PlusWordsOf`, `HoldsMinusWord`, `NextMinute` and `KeepIfEmpty` are parts of one source function each, split out along the source's own loops.
- Requests.RequestQueue.AddFindRequest: the queue drops its front entry only when the queue is non-empty, rather than reading the front of an empty queue as the code does (see Findings). The number of calls is a ghost counter that the source does not keep.
- Text.IsValidWord: characters are Unicode code points. The source's test on signed `char` also treats bytes from 128 up as valid, so the two agree on which characters are rejected: those below the space.

## Findings

| source | as written | input that shows it | evidently intended | confidence | as-written member | corrected member |
|---|---|---|---|---|---|---|
| search-server/paginator.h:21-23 | the last page starts at the current element `it` once at most `page_size` elements remain, even though the open page began earlier at `range_begin` | 4 elements, page size 3: the only page is [1, 4), and element 0 is in no page | the pages cut the whole input into consecutive pages, the last one starting where the open page began | not executed | Pagination.Paginator.constructor, Pagination.PagesLoseElements, Pagination.PagesCoverage | Pagination.CorrectedPaginate, Pagination.CorrectPagesPartition, Pagination.CorrectPagesCover |
| search-server/request_queue.h:24 | `requests_.front().day` is read before `!requests_.empty()` is tested, which is undefined on an empty deque | the first `AddFindRequest` on a new queue, whose deque is empty | an empty queue is left alone and only a non-empty queue's front entry is examined | not executed | Requests.EvictAsWritten, Requests.RequestQueue.FirstRequestReadsEmptyFront | Requests.Evict, Requests.EvictKeepsOrder, Requests.RequestQueue.AddFindRequest |
