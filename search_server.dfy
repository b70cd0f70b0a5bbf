/**
 * The search server: an inverted index from words to the documents that
 * contain them (with each word's term frequency in the document), a table
 * of document data, and the ids in the order they were added. Queries are
 * sets of plus words and minus words; results are ranked by TF-IDF.
 */
module Server {
  import opened Text
  import opened Sums
  import opened Documents

  /** One token of a query after the minus marker is recognised. */
  datatype QueryWord = QueryWord(data: string, isMinus: bool, isStop: bool)

  /** A parsed query: required words and excluded words. */
  datatype Query = Query(plusWords: set<string>, minusWords: set<string>)

  const MinusMarker: char := '-'

  /** Share of the words of a document that are equal to `w`. */
  function TermFrequency(words: seq<string>, w: string): real
    requires words != []
  {
    multiset(words)[w] as real / |words| as real
  }

  /** The words of a list that are not stop words, in their order, with repeats. */
  function RemoveStopWords(words: seq<string>, stopWords: set<string>): (r: seq<string>)
    ensures forall w :: w in r <==> w in words && w !in stopWords
    ensures forall w | w !in stopWords :: multiset(r)[w] == multiset(words)[w]
    ensures |r| <= |words|
  {
    if words == [] then []
    else
      var init, last := words[..|words| - 1], words[|words| - 1];
      assert words == init + [last];
      RemoveStopWords(init, stopWords) + (if last in stopWords then [] else [last])
  }

  class SearchServer {
    /** The stop words, fixed at construction. */
    const stopWords: set<string>
    /** The natural logarithm used for inverse document frequencies. */
    const ln: real -> real

    /** word -> (document id -> term frequency of the word in the document) */
    var wordToDocumentFreqs: map<string, map<int, real>>
    /** document id -> rating and status */
    var documents: map<int, DocumentData>
    /** document ids in the order they were added */
    var documentIds: seq<int>

    /** The non-stop words of each added document, in text order. */
    ghost var docWords: map<int, seq<string>>

    /** The index lists document `id` under word `w`. */
    ghost predicate Indexes(w: string, id: int)
      reads this
    {
      w in wordToDocumentFreqs && id in wordToDocumentFreqs[w]
    }

    /**
     * The index invariant: ids are unique, non-negative and the same in the
     * id list and the document table; the index lists exactly the pairs
     * (word, document) where the word is one of the document's non-stop
     * words, with its term frequency; no posting list is empty.
     */
    ghost predicate Valid()
      reads this
    {
      ServerState(stopWords, documentIds, documents, docWords, wordToDocumentFreqs)
    }

    /** An empty server with validated stop words. */
    constructor (stopWords: set<string>, ln: real -> real)
      requires forall w | w in stopWords :: w != [] && IsValidWord(w)
      ensures Valid()
      ensures this.stopWords == stopWords && this.ln == ln
      ensures wordToDocumentFreqs == map[] && documents == map[] && documentIds == []
    {
      this.stopWords := stopWords;
      this.ln := ln;
      wordToDocumentFreqs := map[];
      documents := map[];
      documentIds := [];
      docWords := map[];
    }

    predicate IsStopWord(word: string) {
      word in stopWords
    }

    /** The tokens of a text that are not stop words. */
    method SplitIntoWordsNoStop(text: string) returns (words: seq<string>)
      ensures words == RemoveStopWords(Words(text), stopWords)
      ensures forall w | w in words :: w != [] && w !in stopWords
    {
      var all := SplitIntoWords(text);
      words := [];
      var i := 0;
      while i < |all|
        invariant 0 <= i <= |all|
        invariant words == RemoveStopWords(all[..i], stopWords)
      {
        assert all[..i + 1][..i] == all[..i];
        if !IsStopWord(all[i]) {
          words := words + [all[i]];
        }
        i := i + 1;
      }
      assert all[..i] == all;
      assert forall w | w in words :: w in all;
    }

    function GetDocumentCount(): (n: nat)
      reads this
      requires Valid()
      ensures n == |documentIds|
    {
      |documents|
    }

    /** The id added in position `documentIndex`, or OutOfRange. */
    function GetDocumentId(documentIndex: int): (r: Result<int>)
      reads this
      requires Valid()
      ensures r.Ok? <==> 0 <= documentIndex < GetDocumentCount()
      ensures r.Ok? ==> r.value == documentIds[documentIndex] && r.value in documents
      ensures r.Err? ==> r.error == OutOfRange
    {
      if 0 <= documentIndex < |documentIds| then Ok(documentIds[documentIndex])
      else Err(OutOfRange)
    }

    /**
     * Adds a document. Fails with InvalidArgument, changing nothing, when
     * the text holds a control character, the id is negative or the id is
     * already present. Otherwise the id is appended, the document data
     * stored, and each non-stop word of the text indexed with its term
     * frequency.
     */
    method AddDocument(documentId: int, document: string, status: DocumentStatus,
                       ratings: seq<int>) returns (r: Outcome)
      requires Valid()
      modifies this
      ensures Valid()
      ensures r.Pass? <==> IsValidWord(document) && documentId >= 0 && documentId !in old(documents)
      ensures r.Fail? ==> r.error == InvalidArgument
      ensures r.Fail? ==> unchanged(this)
      ensures r.Pass? ==>
        && documentIds == old(documentIds) + [documentId]
        && documents == old(documents)[documentId := DocumentData(ComputeAverageRating(ratings), status)]
        && docWords == old(docWords)[documentId := RemoveStopWords(Words(document), stopWords)]
      ensures r.Pass? ==> GetDocumentCount() == old(GetDocumentCount()) + 1
      ensures r.Pass? ==> GetDocumentId(GetDocumentCount() - 1) == Ok(documentId)
      ensures forall w, id | id != documentId ::
        (w in wordToDocumentFreqs && id in wordToDocumentFreqs[w]) ==
        (w in old(wordToDocumentFreqs) && id in old(wordToDocumentFreqs)[w])
      ensures forall w, id | id != documentId && w in wordToDocumentFreqs && id in wordToDocumentFreqs[w] ::
        wordToDocumentFreqs[w][id] == old(wordToDocumentFreqs)[w][id]
    {
      if !IsValidWord(document) {
        return Fail(InvalidArgument);
      }
      if documentId < 0 || documentId in documents {
        return Fail(InvalidArgument);
      }
      var words := SplitIntoWordsNoStop(document);
      StoreDocument(documentId, words, DocumentData(ComputeAverageRating(ratings), status));
      IdAppended(old(documentIds), documentId);
      r := Pass;
    }

    /** After an append to the id list, the count has grown by one and the last id is the new one. */
    lemma IdAppended(oldIds: seq<int>, id: int)
      requires Valid() && documentIds == oldIds + [id]
      ensures GetDocumentCount() == |oldIds| + 1
      ensures GetDocumentId(GetDocumentCount() - 1) == Ok(id)
    {
    }

    /**
     * The successful part of AddDocument, for a new non-negative id and the
     * non-stop words of a valid text: the id is appended, the data stored,
     * and each word occurrence indexed.
     */
    method StoreDocument(documentId: int, words: seq<string>, data: DocumentData)
      requires Valid() && documentId >= 0 && documentId !in documents
      requires forall w | w in words :: w != [] && w !in stopWords
      modifies this
      ensures Valid()
      ensures documentIds == old(documentIds) + [documentId]
      ensures documents == old(documents)[documentId := data]
      ensures docWords == old(docWords)[documentId := words]
      ensures forall w, id | id != documentId ::
        (w in wordToDocumentFreqs && id in wordToDocumentFreqs[w]) ==
        (w in old(wordToDocumentFreqs) && id in old(wordToDocumentFreqs)[w])
      ensures forall w, id | id != documentId && w in wordToDocumentFreqs && id in wordToDocumentFreqs[w] ::
        wordToDocumentFreqs[w][id] == old(wordToDocumentFreqs)[w][id]
    {
      documentIds := documentIds + [documentId];
      ghost var base := wordToDocumentFreqs;
      var invWordCount: real := if |words| > 0 then 1.0 / |words| as real else 0.0;
      NothingIndexedYet(stopWords, old(documentIds), documents, docWords, base, documentId, invWordCount);
      IndexWords(documentId, words, invWordCount);
      documents := documents[documentId := data];
      docWords := docWords[documentId := words];
      StoredDocumentValid(old(documentIds), old(documents), old(docWords), base, documentId, data, words);
    }

    /** The state after StoreDocument's assignments is valid, and other documents keep their postings. */
    lemma StoredDocumentValid(oldIds: seq<int>, oldDocuments: map<int, DocumentData>,
                              oldWords: map<int, seq<string>>, base: map<string, map<int, real>>,
                              id: int, data: DocumentData, words: seq<string>)
      requires ServerState(stopWords, oldIds, oldDocuments, oldWords, base)
      requires id >= 0 && id !in oldDocuments
      requires forall w | w in words :: w != [] && w !in stopWords
      requires PartlyIndexed(base, id, words, if |words| > 0 then 1.0 / |words| as real else 0.0,
                             wordToDocumentFreqs)
      requires documentIds == oldIds + [id] && documents == oldDocuments[id := data]
      requires docWords == oldWords[id := words]
      ensures Valid()
      ensures forall w, d | d != id ::
        (w in wordToDocumentFreqs && d in wordToDocumentFreqs[w]) == (w in base && d in base[w])
      ensures forall w, d | d != id && w in wordToDocumentFreqs && d in wordToDocumentFreqs[w] ::
        wordToDocumentFreqs[w][d] == base[w][d]
    {
      AddedDocumentState(stopWords, oldIds, oldDocuments, oldWords, base, id, data, words,
                         wordToDocumentFreqs);
    }

    /** The loop of AddDocument: adds `inv` to the posting of `id` for each word occurrence. */
    method IndexWords(id: int, words: seq<string>, inv: real)
      requires forall x | x in wordToDocumentFreqs :: id !in wordToDocumentFreqs[x]
      modifies this
      ensures PartlyIndexed(old(wordToDocumentFreqs), id, words, inv, wordToDocumentFreqs)
      ensures documentIds == old(documentIds) && documents == old(documents) && docWords == old(docWords)
    {
      var index := wordToDocumentFreqs;
      var i := 0;
      assert words[..i] == [];
      while i < |words|
        invariant 0 <= i <= |words|
        invariant PartlyIndexed(wordToDocumentFreqs, id, words[..i], inv, index)
        modifies {}
      {
        var word := words[i];
        var postings := if word in index then index[word] else map[];
        PartlyIndexedStep(wordToDocumentFreqs, id, words, i, inv, index, postings);
        var freq := if id in postings then postings[id] else 0.0;
        index := index[word := postings[id := freq + inv]];
        i := i + 1;
      }
      assert words[..i] == words;
      wordToDocumentFreqs := index;
    }

    /**
     * A word of the query text, with a leading minus marker recognised and
     * stripped; the stop-word test applies to the stripped word.
     */
    function ParseQueryWord(text: string): (q: QueryWord)
      ensures q.isMinus <==> |text| > 0 && text[0] == MinusMarker
      ensures text == (if q.isMinus then [MinusMarker] else []) + q.data
      ensures q.isStop <==> q.data in stopWords
    {
      var isMinus := |text| > 0 && text[0] == MinusMarker;
      var data := if isMinus then text[1..] else text;
      QueryWord(data, isMinus, IsStopWord(data))
    }

    /**
     * The query a text denotes: plus words are the tokens without a leading
     * minus marker, minus words are the tokens with one, marker stripped;
     * stop words are dropped from both after stripping.
     */
    ghost function QueryOf(text: string): Query {
      Query(
        set t | t in Words(text) && !ParseQueryWord(t).isMinus && !ParseQueryWord(t).isStop,
        set t | t in Words(text) && ParseQueryWord(t).isMinus && !ParseQueryWord(t).isStop
          :: ParseQueryWord(t).data)
    }

    /** What the words of QueryOf are, in terms of the tokens of the text. */
    lemma QueryWords(text: string, w: string)
      ensures w in QueryOf(text).plusWords <==>
        w in Words(text) && w != [] && w[0] != MinusMarker && w !in stopWords
      ensures w in QueryOf(text).minusWords <==>
        [MinusMarker] + w in Words(text) && w !in stopWords
    {
      WordsAreNonEmptyRuns(text);
      var t := [MinusMarker] + w;
      assert t[1..] == w;
      if w in QueryOf(text).minusWords {
        var u :| u in Words(text) && ParseQueryWord(u).isMinus && !ParseQueryWord(u).isStop
                 && ParseQueryWord(u).data == w;
        assert u == [u[0]] + u[1..];
      }
    }

    /** Splits the query text and sorts its tokens into plus and minus words. */
    method ParseQuery(text: string) returns (query: Query)
      ensures query == QueryOf(text)
    {
      var tokens := SplitIntoWords(text);
      var plus: set<string> := {};
      var minus: set<string> := {};
      var i := 0;
      while i < |tokens|
        invariant 0 <= i <= |tokens|
        invariant plus == set t | t in tokens[..i] && !ParseQueryWord(t).isMinus && !ParseQueryWord(t).isStop
        invariant minus == set t | t in tokens[..i] && ParseQueryWord(t).isMinus && !ParseQueryWord(t).isStop
                             :: ParseQueryWord(t).data
      {
        var queryWord := ParseQueryWord(tokens[i]);
        assert tokens[..i + 1] == tokens[..i] + [tokens[i]];
        if !queryWord.isStop {
          if queryWord.isMinus {
            minus := minus + {queryWord.data};
          } else {
            plus := plus + {queryWord.data};
          }
        }
        i := i + 1;
      }
      assert tokens[..i] == tokens;
      query := Query(plus, minus);
    }

    /**
     * A query text is accepted when it holds no control character and none
     * of its minus words is empty or starts with a second minus marker.
     */
    ghost predicate QueryIsValid(text: string) {
      IsValidWord(text) &&
      forall w | w in QueryOf(text).minusWords :: w != [] && w[0] != MinusMarker
    }

    /**
     * The failing query texts, token by token: a bare minus marker always
     * fails; a token with two leading markers fails unless the text after the
     * first marker is a stop word (stop words are dropped before the check).
     */
    lemma QueryValidity(text: string)
      requires Valid()
      ensures QueryIsValid(text) <==>
        IsValidWord(text) &&
        forall t | t in Words(text) && |t| >= 1 && t[0] == MinusMarker ::
          |t| >= 2 && (t[1] == MinusMarker ==> t[1..] in stopWords)
    {
      WordsAreNonEmptyRuns(text);
      var tokensOk := forall t | t in Words(text) && |t| >= 1 && t[0] == MinusMarker ::
        |t| >= 2 && (t[1] == MinusMarker ==> t[1..] in stopWords);
      if !tokensOk {
        var t :| t in Words(text) && |t| >= 1 && t[0] == MinusMarker &&
                 !(|t| >= 2 && (t[1] == MinusMarker ==> t[1..] in stopWords));
        assert ParseQueryWord(t).data == t[1..];
        assert t[1..] in QueryOf(text).minusWords;
      } else {
        forall w | w in QueryOf(text).minusWords
          ensures w != [] && w[0] != MinusMarker
        {
          var t :| t in Words(text) && ParseQueryWord(t).isMinus && !ParseQueryWord(t).isStop
                   && ParseQueryWord(t).data == w;
        }
      }
    }

    /** Checks the syntax of the minus words, one by one. */
    method CheckMinusWords(query: Query) returns (ok: bool)
      ensures ok <==> forall w | w in query.minusWords :: w != [] && w[0] != MinusMarker
    {
      var rest := query.minusWords;
      while rest != {}
        invariant rest <= query.minusWords
        invariant forall w | w in query.minusWords - rest :: w != [] && w[0] != MinusMarker
        decreases rest
      {
        var word :| word in rest;
        if |word| == 0 || word[0] == MinusMarker {
          return false;
        }
        rest := rest - {word};
      }
      assert query.minusWords - rest == query.minusWords;
      return true;
    }

    /** Inverse document frequency: the log of documents per document holding the word. */
    function ComputeWordInverseDocumentFreq(word: string): real
      reads this
      requires word in wordToDocumentFreqs
    {
      if |wordToDocumentFreqs[word]| == 0 then 0.0
      else ln(|documents| as real / |wordToDocumentFreqs[word]| as real)
    }

    /**
     * The logarithm's argument in the inverse document frequency is at least
     * one, and is exactly one when the word is in every document.
     */
    lemma InverseDocumentFreqRatio(word: string)
      requires Valid() && word in wordToDocumentFreqs
      ensures 1 <= |wordToDocumentFreqs[word]| <= GetDocumentCount()
      ensures |wordToDocumentFreqs[word]| == GetDocumentCount() <==>
        forall id | id in documents :: Indexes(word, id)
    {
      var postings := wordToDocumentFreqs[word].Keys;
      forall id | id in postings
        ensures id in documents
      {
        assert id in docWords;
      }
      assert |postings| == |wordToDocumentFreqs[word]| > 0;
      SubsetCardinality(postings, documents.Keys);
      if postings == documents.Keys {
        forall id | id in documents
          ensures Indexes(word, id)
        {
          assert id in postings;
        }
      }
      if forall id | id in documents :: Indexes(word, id) {
        forall id | id in documents
          ensures id in postings
        {
          assert Indexes(word, id);
        }
      }
    }

    /** The term frequencies of one document. */
    ghost function DocumentFreqs(id: int): map<string, real>
      reads this
    {
      map w | w in wordToDocumentFreqs && id in wordToDocumentFreqs[w] :: wordToDocumentFreqs[w][id]
    }

    /** The term frequencies of a document with at least one non-stop word sum to one. */
    lemma TermFrequenciesSumToOne(id: int)
      requires Valid() && id in documents && docWords[id] != []
      ensures SumMap(DocumentFreqs(id)) == 1.0
    {
      var ws := docWords[id];
      forall w
        ensures w in ws <==> w in wordToDocumentFreqs && id in wordToDocumentFreqs[w]
      {
        if w in ws {
          assert id in docWords && w in docWords[id];
          assert Indexes(w, id);
        }
      }
      FrequenciesOfWordsSumToOne(wordToDocumentFreqs, id, ws);
    }

    /** What one plus word adds to the relevance of a document. */
    ghost function Contributions(id: int, words: set<string>): map<string, real>
      reads this
    {
      map w | w in words && Indexes(w, id) :: Contribution(w, id)
    }

    /** Relevance of a document for a set of plus words: the sum of TF times IDF. */
    ghost function Relevance(id: int, words: set<string>): real
      reads this
    {
      SumMap(Contributions(id, words))
    }

    /**
     * The documents a search selects before ranking: those that pass the
     * predicate and hold some plus word, minus those that hold any minus
     * word, whatever the predicate says of them.
     */
    ghost function Selected(query: Query, documentPredicate: DocumentPredicate): set<int>
      reads this
    {
      set id | id in documents && PassesFilter(id, documentPredicate)
        && (exists w :: w in query.plusWords && Indexes(w, id))
        && !(exists w :: w in query.minusWords && Indexes(w, id))
    }

    /** A result entry for a selected document, with its relevance and rating. */
    ghost predicate IsMatch(query: Query, documentPredicate: DocumentPredicate, d: Document)
      reads this
    {
      d.id in Selected(query, documentPredicate) &&
      d.relevance == Relevance(d.id, query.plusWords) &&
      d.rating == documents[d.id].rating
    }

    /**
     * What a successful search returns: as many selected documents as fit in
     * the result limit, each at most once, each with its relevance and rating.
     */
    ghost predicate IsTopDocuments(query: Query, documentPredicate: DocumentPredicate, docs: seq<Document>)
      reads this
    {
      var selected := Selected(query, documentPredicate);
      |docs| == (if |selected| < MaxResultDocumentCount then |selected| else MaxResultDocumentCount) &&
      DistinctIds(docs) &&
      forall i | 0 <= i < |docs| :: IsMatch(query, documentPredicate, docs[i])
    }

    /** The outcome a search for a query text with a predicate must have. */
    ghost predicate IsSearchOutcome(rawQuery: string, documentPredicate: DocumentPredicate,
                                    r: Result<seq<Document>>)
      reads this
    {
      (r.Err? <==> !QueryIsValid(rawQuery)) &&
      (r.Err? ==> r.error == InvalidArgument) &&
      (r.Ok? ==> IsTopDocuments(QueryOf(rawQuery), documentPredicate, r.value))
    }

    /** The document exists and the caller's filter accepts it. */
    predicate PassesFilter(id: int, documentPredicate: DocumentPredicate)
      reads this
    {
      id in documents && documentPredicate(id, documents[id].status, documents[id].rating)
    }

    /**
     * The relevance map after the plus words in `done`: it holds the
     * documents passing the filter that contain one of those words, each
     * with its relevance for them.
     */
    ghost predicate RelevanceAfter(rel: map<int, real>, done: set<string>, documentPredicate: DocumentPredicate)
      reads this
    {
      && (forall id :: id in rel <==> PassesFilter(id, documentPredicate) && exists w :: w in done && Indexes(w, id))
      && (forall id | id in rel :: rel[id] == Relevance(id, done))
    }

    /**
     * `rel'` is `rel` with the TF-IDF of `word` added for the documents
     * holding it that pass the filter; the other entries are untouched.
     */
    ghost predicate AddsWord(rel: map<int, real>, rel': map<int, real>, word: string,
                             documentPredicate: DocumentPredicate)
      reads this
      requires word in wordToDocumentFreqs
    {
      && (forall id :: id in rel' <==>
            id in rel || (id in wordToDocumentFreqs[word] && PassesFilter(id, documentPredicate)))
      && (forall id | id in rel' ::
            rel'[id] == if id in wordToDocumentFreqs[word] && PassesFilter(id, documentPredicate)
                        then (if id in rel then rel[id] else 0.0) + Contribution(word, id)
                        else rel[id])
    }

    /** Adds the contributions of one plus word to the relevance of the documents holding it. */
    method AddWordRelevance(rel: map<int, real>, word: string, idf: real,
                            documentPredicate: DocumentPredicate) returns (rel': map<int, real>)
      requires word in wordToDocumentFreqs
      requires forall id | id in wordToDocumentFreqs[word] :: id in documents
      requires idf == ComputeWordInverseDocumentFreq(word)
      ensures AddsWord(rel, rel', word, documentPredicate)
    {
      var postings := wordToDocumentFreqs[word];
      rel' := rel;
      var todo := postings.Keys;
      while todo != {}
        invariant todo <= postings.Keys
        invariant forall id :: id in rel' <==>
          id in rel || (id in postings.Keys - todo && PassesFilter(id, documentPredicate))
        invariant forall id | id in rel' ::
          rel'[id] == if id in postings.Keys - todo && PassesFilter(id, documentPredicate)
                      then (if id in rel then rel[id] else 0.0) + Contribution(word, id)
                      else rel[id]
        decreases todo
      {
        var id := SomeElement(todo);
        var data := documents[id];
        if documentPredicate(id, data.status, data.rating) {
          var current := if id in rel' then rel'[id] else 0.0;
          assert postings[id] * idf == Contribution(word, id);
          rel' := rel'[id := current + postings[id] * idf];
        }
        todo := todo - {id};
      }
      assert postings.Keys - todo == postings.Keys;
    }

    /** Every posting names a stored document. */
    lemma PostingsAreDocuments()
      requires Valid()
      ensures forall w, id | w in wordToDocumentFreqs && id in wordToDocumentFreqs[w] :: id in documents
    {
      forall w, id | w in wordToDocumentFreqs && id in wordToDocumentFreqs[w]
        ensures id in documents
      {
        assert id in docWords;
      }
    }

    /** One more plus word: AddsWord turns the relevance map for `done` into the one for `done + {word}`. */
    lemma PlusRelevanceStep(rel: map<int, real>, rel': map<int, real>, done: set<string>, word: string,
                            documentPredicate: DocumentPredicate)
      requires word !in done
      requires RelevanceAfter(rel, done, documentPredicate)
      requires word in wordToDocumentFreqs ==> AddsWord(rel, rel', word, documentPredicate)
      requires word !in wordToDocumentFreqs ==> rel' == rel
      ensures RelevanceAfter(rel', done + {word}, documentPredicate)
    {
      forall id | id in rel'
        ensures rel'[id] == Relevance(id, done + {word})
      {
        ContributionsStep(id, done, word);
        if Indexes(word, id) && PassesFilter(id, documentPredicate) && id !in rel {
          assert Contributions(id, done) == map[];
        }
      }
    }

    /** What word `w` adds to the relevance of document `id`: its TF times its IDF. */
    ghost function Contribution(w: string, id: int): real
      reads this
      requires Indexes(w, id)
    {
      wordToDocumentFreqs[w][id] * ComputeWordInverseDocumentFreq(w)
    }

    /** The contributions for one more word: one more entry when the document holds it. */
    lemma ContributionsStep(id: int, done: set<string>, word: string)
      requires word !in done
      ensures Indexes(word, id) ==> Relevance(id, done + {word}) == Relevance(id, done) + Contribution(word, id)
      ensures !Indexes(word, id) ==> Relevance(id, done + {word}) == Relevance(id, done)
    {
      var c := Contributions(id, done);
      var c' := Contributions(id, done + {word});
      if Indexes(word, id) {
        assert c'.Keys == c.Keys + {word};
        forall w | w in c
          ensures c'[w] == c[w]
        {
        }
        SumMapAddKey(c, c', word);
      } else {
        assert c'.Keys == c.Keys;
        assert c' == c;
      }
    }

    /** Erases every document holding `word` from the relevance map. */
    method RemoveWordDocuments(rel: map<int, real>, word: string) returns (rel': map<int, real>)
      requires word in wordToDocumentFreqs
      ensures forall id :: id in rel' <==> id in rel && !Indexes(word, id)
      ensures forall id | id in rel' :: rel'[id] == rel[id]
    {
      rel' := rel;
      var todo := wordToDocumentFreqs[word].Keys;
      while todo != {}
        invariant todo <= wordToDocumentFreqs[word].Keys
        invariant forall id :: id in rel' <==> id in rel && id !in wordToDocumentFreqs[word].Keys - todo
        invariant forall id | id in rel' :: rel'[id] == rel[id]
        decreases todo
      {
        var id := SomeElement(todo);
        if id in rel' {
          rel' := rel' - {id};
        }
        todo := todo - {id};
      }
      assert wordToDocumentFreqs[word].Keys - todo == wordToDocumentFreqs[word].Keys;
    }

    /**
     * Collects the selected documents with their relevance: adds up TF-IDF
     * over the plus words for the documents that pass the filter, then
     * erases every document that holds a minus word.
     */
    method FindAllDocuments(query: Query, documentPredicate: DocumentPredicate) returns (matched: seq<Document>)
      requires Valid()
      ensures AscendingIds(matched) && DistinctIds(matched)
      ensures |matched| == |Selected(query, documentPredicate)|
      ensures forall i | 0 <= i < |matched| :: IsMatch(query, documentPredicate, matched[i])
    {
      PostingsAreDocuments();
      var plusRel := CollectPlusWords(query.plusWords, documentPredicate);
      var rel := RemoveMinusWords(plusRel, query.minusWords);
      SelectedIsFinalRelevance(query, documentPredicate, plusRel, rel);
      matched := ToDocuments(rel);
    }

    /** The second phase of FindAllDocuments: erases the documents holding any minus word. */
    method RemoveMinusWords(rel: map<int, real>, minusWords: set<string>) returns (rel': map<int, real>)
      ensures forall id :: id in rel' <==> id in rel && !(exists w :: w in minusWords && Indexes(w, id))
      ensures forall id | id in rel' :: rel'[id] == rel[id]
    {
      rel' := rel;
      var todo := minusWords;
      while todo != {}
        invariant todo <= minusWords
        invariant forall id :: id in rel' <==>
          id in rel && !(exists w :: w in minusWords - todo && Indexes(w, id))
        invariant forall id | id in rel' :: rel'[id] == rel[id]
        decreases todo
      {
        var word := SomeElement(todo);
        if word in wordToDocumentFreqs {
          rel' := RemoveWordDocuments(rel', word);
        }
        assert minusWords - (todo - {word}) == (minusWords - todo) + {word};
        todo := todo - {word};
      }
      assert minusWords - todo == minusWords;
    }

    /** After both phases the relevance map holds exactly the selected documents. */
    lemma SelectedIsFinalRelevance(query: Query, documentPredicate: DocumentPredicate,
                                   plusRel: map<int, real>, rel: map<int, real>)
      requires RelevanceAfter(plusRel, query.plusWords, documentPredicate)
      requires forall id :: id in rel <==>
        id in plusRel && !(exists w :: w in query.minusWords && Indexes(w, id))
      requires forall id | id in rel :: rel[id] == plusRel[id]
      ensures rel.Keys == Selected(query, documentPredicate)
      ensures forall id | id in rel :: rel[id] == Relevance(id, query.plusWords)
    {
      forall id
        ensures id in rel.Keys <==> id in Selected(query, documentPredicate)
      {
        if id in rel {
          assert id in plusRel;
        }
      }
    }

    /** The last phase of FindAllDocuments: one result per entry of the relevance map. */
    method ToDocuments(rel: map<int, real>) returns (matched: seq<Document>)
      requires forall id | id in rel :: id in documents
      ensures AscendingIds(matched) && DistinctIds(matched)
      ensures |matched| == |rel.Keys|
      ensures forall i | 0 <= i < |matched| ::
        matched[i].id in rel && matched[i].relevance == rel[matched[i].id] &&
        matched[i].rating == documents[matched[i].id].rating
    {
      matched := [];
      var ids := rel.Keys;
      while ids != {}
        invariant ids <= rel.Keys
        invariant |matched| + |ids| == |rel.Keys|
        invariant AscendingIds(matched)
        invariant ListedBefore(rel, ids, matched)
        decreases ids
      {
        var id := MinId(ids);
        var d := Document(id, rel[id], documents[id].rating);
        ListedStep(rel, ids, matched, id);
        AppendKeepsAscending(matched, d);
        matched := matched + [d];
        ids := ids - {id};
      }
    }

    /**
     * The results so far are entries of `rel` not among the ids still to
     * visit, with their relevance and stored rating, and each id is below
     * every id still to visit.
     */
    ghost predicate ListedBefore(rel: map<int, real>, ids: set<int>, matched: seq<Document>)
      reads this
    {
      && (forall i | 0 <= i < |matched| ::
            matched[i].id in rel && matched[i].id !in ids && matched[i].relevance == rel[matched[i].id] &&
            matched[i].id in documents && matched[i].rating == documents[matched[i].id].rating)
      && (forall i, x | 0 <= i < |matched| && x in ids :: matched[i].id < x)
    }

    /** Visiting the least id still to visit keeps ListedBefore, and the new result is above the others. */
    lemma ListedStep(rel: map<int, real>, ids: set<int>, matched: seq<Document>, id: int)
      requires ListedBefore(rel, ids, matched)
      requires id in ids && id in rel && id in documents
      requires forall x | x in ids :: id <= x
      ensures forall i | 0 <= i < |matched| :: matched[i].id < id
      ensures ListedBefore(rel, ids - {id}, matched + [Document(id, rel[id], documents[id].rating)])
      ensures |ids - {id}| == |ids| - 1
    {
    }

    /** The first phase of FindAllDocuments: the relevance of every document for the plus words. */
    method CollectPlusWords(plusWords: set<string>, documentPredicate: DocumentPredicate)
      returns (rel: map<int, real>)
      requires forall w, id | w in wordToDocumentFreqs && id in wordToDocumentFreqs[w] :: id in documents
      ensures RelevanceAfter(rel, plusWords, documentPredicate)
    {
      rel := map[];
      var todo := plusWords;
      while todo != {}
        invariant todo <= plusWords
        invariant RelevanceAfter(rel, plusWords - todo, documentPredicate)
        decreases todo
      {
        var word := SomeElement(todo);
        var rel' := rel;
        if word in wordToDocumentFreqs {
          var idf := ComputeWordInverseDocumentFreq(word);
          rel' := AddWordRelevance(rel, word, idf, documentPredicate);
        }
        PlusRelevanceStep(rel, rel', plusWords - todo, word, documentPredicate);
        assert plusWords - (todo - {word}) == (plusWords - todo) + {word};
        rel := rel';
        todo := todo - {word};
      }
      assert plusWords - todo == plusWords;
    }

    /**
     * The ranked search: validates the query, collects the selected documents,
     * sorts them by rank and keeps at most MaxResultDocumentCount of them.
     */
    method FindTopDocuments(rawQuery: string, documentPredicate: DocumentPredicate)
      returns (r: Result<seq<Document>>)
      requires Valid()
      ensures IsSearchOutcome(rawQuery, documentPredicate, r)
    {
      var query := ParseQuery(rawQuery);
      if !IsValidWord(rawQuery) {
        return Err(InvalidArgument);
      }
      var ok := CheckMinusWords(query);
      if !ok {
        return Err(InvalidArgument);
      }
      var matched := FindAllDocuments(query, documentPredicate);
      var top := SortAndTruncate(matched);
      forall i | 0 <= i < |top|
        ensures IsMatch(query, documentPredicate, top[i])
      {
        assert top[i] in multiset(matched);
      }
      return Ok(top);
    }

    /** The search with the default filter: documents of the given status. */
    method FindTopDocumentsByStatus(rawQuery: string, status: DocumentStatus := Actual)
      returns (r: Result<seq<Document>>)
      requires Valid()
      ensures IsSearchOutcome(rawQuery, StatusIs(status), r)
    {
      r := FindTopDocuments(rawQuery, StatusIs(status));
    }

    /** When few documents are selected, the search returns every one of them. */
    lemma FewSelectedAllReturned(query: Query, documentPredicate: DocumentPredicate, docs: seq<Document>)
      requires IsTopDocuments(query, documentPredicate, docs)
      requires |Selected(query, documentPredicate)| <= MaxResultDocumentCount
      ensures (set i | 0 <= i < |docs| :: docs[i].id) == Selected(query, documentPredicate)
    {
      var ids := set i | 0 <= i < |docs| :: docs[i].id;
      DistinctIdsCardinality(docs);
      SubsetCardinality(ids, Selected(query, documentPredicate));
    }

    /**
     * The words of `plusWords` that document `id` holds, visited in
     * ascending order as the ordered set is.
     */
    method PlusWordsOf(plusWords: set<string>, id: int) returns (matched: seq<string>)
      ensures forall i, j | 0 <= i < j < |matched| :: LexLess(matched[i], matched[j])
      ensures forall w :: w in matched <==> w in plusWords && Indexes(w, id)
    {
      matched := [];
      var rest := plusWords;
      while rest != {}
        invariant rest <= plusWords
        invariant forall i, j | 0 <= i < j < |matched| :: LexLess(matched[i], matched[j])
        invariant forall i, w | 0 <= i < |matched| && w in rest :: LexLess(matched[i], w)
        invariant forall w :: w in matched <==> w in plusWords - rest && Indexes(w, id)
        decreases rest
      {
        var word := MinWord(rest);
        if word in wordToDocumentFreqs && id in wordToDocumentFreqs[word] {
          matched := matched + [word];
        }
        rest := rest - {word};
      }
    }

    /** Whether document `id` holds one of `minusWords`; the scan stops at the first. */
    method HoldsMinusWord(minusWords: set<string>, id: int) returns (found: bool)
      ensures found <==> exists w :: w in minusWords && Indexes(w, id)
    {
      var minus := minusWords;
      while minus != {}
        invariant minus <= minusWords
        invariant !(exists w :: w in minusWords - minus && Indexes(w, id))
        decreases minus
      {
        var word := SomeElement(minus);
        if word in wordToDocumentFreqs && id in wordToDocumentFreqs[word] {
          return true;
        }
        minus := minus - {word};
      }
      return false;
    }

    ghost function MatchedWords(query: Query, id: int): set<string>
      reads this
    {
      if exists w :: w in query.minusWords && Indexes(w, id) then {}
      else set w | w in query.plusWords && Indexes(w, id)
    }

    /**
     * Reports the plus words of the query that the document holds, in
     * ascending order, or none when it holds a minus word, with the
     * document's status. An invalid query fails with InvalidArgument; an
     * unknown document, looked up last, with OutOfRange.
     */
    method MatchDocument(rawQuery: string, documentId: int)
      returns (r: Result<(seq<string>, DocumentStatus)>)
      requires Valid()
      ensures r.Err? <==> !QueryIsValid(rawQuery) || documentId !in documents
      ensures r.Err? ==> r.error == if QueryIsValid(rawQuery) then OutOfRange else InvalidArgument
      ensures r.Ok? ==>
        var (matched, status) := r.value;
        && status == documents[documentId].status
        && (forall i, j | 0 <= i < j < |matched| :: LexLess(matched[i], matched[j]))
        && (forall w :: w in matched <==> w in MatchedWords(QueryOf(rawQuery), documentId))
    {
      var query := ParseQuery(rawQuery);
      if !IsValidWord(rawQuery) {
        return Err(InvalidArgument);
      }
      var ok := CheckMinusWords(query);
      if !ok {
        return Err(InvalidArgument);
      }

      var matchedWords := PlusWordsOf(query.plusWords, documentId);
      var excluded := HoldsMinusWord(query.minusWords, documentId);
      if excluded {
        matchedWords := [];
      }

      if documentId !in documents {
        return Err(OutOfRange);
      }
      return Ok((matchedWords, documents[documentId].status));
    }
  }

  /** The filter of the status overloads: status equal to the given one. */
  function StatusIs(status: DocumentStatus): (p: DocumentPredicate)
    ensures forall id, s, rating :: p(id, s, rating) <==> s == status
  {
    (id: int, s: DocumentStatus, rating: int) => s == status
  }

  /**
   * If the postings of document `id` are exactly its words, each with its
   * term frequency, those frequencies sum to one.
   */
  lemma FrequenciesOfWordsSumToOne(index: map<string, map<int, real>>, id: int, ws: seq<string>)
    requires ws != []
    requires forall w :: w in ws <==> w in index && id in index[w]
    requires forall w | w in index && id in index[w] :: index[w][id] == TermFrequency(ws, w)
    ensures SumMap(map w | w in index && id in index[w] :: index[w][id]) == 1.0
  {
    var inv := 1.0 / |ws| as real;
    var shares := Shares(ws, inv);
    var freqs := map w | w in index && id in index[w] :: index[w][id];
    assert freqs.Keys == shares.Keys;
    forall w | w in shares
      ensures freqs[w] == shares[w]
    {
      RepeatedShare(multiset(ws)[w], |ws|);
    }
    SumMapSame(shares, freqs);
    SharesSum(ws, inv);
    WholeShare(|ws|);
  }

  /**
   * The server invariant: ids are unique, non-negative and the same in the
   * id list and the document table; the words are recorded for exactly the
   * stored documents; the index matches the recorded words.
   */
  ghost predicate ServerState(stopWords: set<string>, documentIds: seq<int>,
                              documents: map<int, DocumentData>, docWords: map<int, seq<string>>,
                              index: map<string, map<int, real>>)
  {
    && (forall w | w in stopWords :: w != [] && IsValidWord(w))
    && |documentIds| == |documents|
    && (forall i, j | 0 <= i < j < |documentIds| :: documentIds[i] != documentIds[j])
    && (forall id :: id in documents <==> id in documentIds)
    && (forall id | id in documents :: id >= 0)
    && docWords.Keys == documents.Keys
    && IndexMatches(index, docWords, stopWords)
  }

  /** Adding a fresh document with its words indexed keeps the server invariant. */
  lemma AddedDocumentState(stopWords: set<string>, documentIds: seq<int>,
                           documents: map<int, DocumentData>, docWords: map<int, seq<string>>,
                           base: map<string, map<int, real>>, id: int, data: DocumentData,
                           words: seq<string>, index: map<string, map<int, real>>)
    requires ServerState(stopWords, documentIds, documents, docWords, base)
    requires id >= 0 && id !in documents
    requires forall w | w in words :: w != [] && w !in stopWords
    requires PartlyIndexed(base, id, words, if |words| > 0 then 1.0 / |words| as real else 0.0, index)
    ensures ServerState(stopWords, documentIds + [id], documents[id := data], docWords[id := words], index)
    ensures forall x, d | d != id :: (x in index && d in index[x]) == (x in base && d in base[x])
    ensures forall x, d | d != id && x in index && d in index[x] :: index[x][d] == base[x][d]
  {
    IndexedDocument(docWords, base, id, words, stopWords, index);
    var ids := documentIds + [id];
    assert documents[id := data].Keys == documents.Keys + {id};
    assert |documents[id := data]| == |documents| + 1;
    forall i, j | 0 <= i < j < |ids|
      ensures ids[i] != ids[j]
    {
      if j == |ids| - 1 {
        assert ids[i] == documentIds[i] && documentIds[i] in documents;
      }
    }
  }

  /**
   * The index lists exactly the (word, document) pairs of `docWords`, each
   * with the word's term frequency in the document, and no posting list is
   * empty; the words are non-empty non-stop words.
   */
  ghost predicate IndexMatches(index: map<string, map<int, real>>, docWords: map<int, seq<string>>,
                               stopWords: set<string>)
  {
    WordsIndexed(index, docWords, stopWords) && PostingsMatch(index, docWords) && PostingsNonEmpty(index)
  }

  /** Every word of every document is a non-empty non-stop word with a posting for it. */
  ghost predicate WordsIndexed(index: map<string, map<int, real>>, docWords: map<int, seq<string>>,
                               stopWords: set<string>)
  {
    forall id, w | id in docWords && w in docWords[id] ::
      w != [] && w !in stopWords && w in index && id in index[w]
  }

  /** Every posting belongs to a word of its document and holds the term frequency. */
  ghost predicate PostingsMatch(index: map<string, map<int, real>>, docWords: map<int, seq<string>>)
  {
    forall w, id | w in index && id in index[w] ::
      id in docWords && w in docWords[id] && index[w][id] == TermFrequency(docWords[id], w)
  }

  ghost predicate PostingsNonEmpty(index: map<string, map<int, real>>)
  {
    forall w | w in index :: |index[w]| > 0
  }

  /**
   * The state of the index while document `id` is being added: the
   * postings of `base` are kept, and every word of `prefix` carries `id`
   * with its count in `prefix` times `inv`.
   */
  ghost predicate PartlyIndexed(base: map<string, map<int, real>>, id: int, prefix: seq<string>,
                                inv: real, index: map<string, map<int, real>>)
  {
    && BaseKept(base, prefix, index)
    && PrefixCounted(id, prefix, inv, index)
    && OthersKept(base, id, prefix, index)
  }

  /** The words of `index` are those of `base` and `prefix`, and every posting of `base` is kept. */
  ghost predicate BaseKept(base: map<string, map<int, real>>, prefix: seq<string>,
                           index: map<string, map<int, real>>)
  {
    && (forall x :: x in index <==> x in base || x in prefix)
    && (forall x, d | x in base && d in base[x] :: d in index[x])
  }

  /** Every word of `prefix` carries `id` with its count in `prefix` times `inv`. */
  ghost predicate PrefixCounted(id: int, prefix: seq<string>, inv: real, index: map<string, map<int, real>>)
  {
    forall x | x in prefix ::
      x in index && id in index[x] && index[x][id] == Repeated(multiset(prefix)[x], inv)
  }

  /** Postings of `id` are for words of `prefix`; all other postings are those of `base`. */
  ghost predicate OthersKept(base: map<string, map<int, real>>, id: int, prefix: seq<string>,
                             index: map<string, map<int, real>>)
  {
    forall x, d | x in index && d in index[x] ::
      if d == id then x in prefix
      else x in base && d in base[x] && index[x][d] == base[x][d]
  }

  /** Before the first word of a new document, the index is only the old one. */
  lemma NothingIndexedYet(stopWords: set<string>, documentIds: seq<int>,
                          documents: map<int, DocumentData>, docWords: map<int, seq<string>>,
                          base: map<string, map<int, real>>, id: int, inv: real)
    requires ServerState(stopWords, documentIds, documents, docWords, base)
    requires id !in documents
    ensures PartlyIndexed(base, id, [], inv, base)
    ensures forall x | x in base :: id !in base[x]
  {
  }

  /** Adding one more word occurrence of the document keeps PartlyIndexed. */
  lemma PartlyIndexedStep(base: map<string, map<int, real>>, id: int, words: seq<string>, i: nat,
                          inv: real, index: map<string, map<int, real>>, postings: map<int, real>)
    requires i < |words|
    requires forall x | x in base :: id !in base[x]
    requires PartlyIndexed(base, id, words[..i], inv, index)
    requires postings == if words[i] in index then index[words[i]] else map[]
    ensures
      var freq := if id in postings then postings[id] else 0.0;
      PartlyIndexed(base, id, words[..i + 1], inv, index[words[i] := postings[id := freq + inv]])
  {
    var w := words[i];
    assert words[..i + 1] == words[..i] + [w];
    var freq := if id in postings then postings[id] else 0.0;
    BaseKeptStep(base, words[..i], w, index, postings[id := freq + inv]);
    PrefixCountedStep(id, words[..i], w, inv, index);
    OthersKeptStep(base, id, words[..i], w, index, postings[id := freq + inv]);
  }

  lemma BaseKeptStep(base: map<string, map<int, real>>, prefix: seq<string>, w: string,
                     index: map<string, map<int, real>>, postings: map<int, real>)
    requires BaseKept(base, prefix, index)
    requires w in index ==> index[w].Keys <= postings.Keys
    ensures BaseKept(base, prefix + [w], index[w := postings])
  {
    var next := index[w := postings];
    forall x, d | x in base && d in base[x]
      ensures d in next[x]
    {
      assert d in index[x];
    }
    forall x
      ensures x in next <==> x in base || x in prefix + [w]
    {
    }
  }

  lemma OthersKeptStep(base: map<string, map<int, real>>, id: int, prefix: seq<string>, w: string,
                       index: map<string, map<int, real>>, postings: map<int, real>)
    requires OthersKept(base, id, prefix, index)
    requires id in postings
    requires forall d | d in postings && d != id ::
      w in index && d in index[w] && postings[d] == index[w][d]
    ensures OthersKept(base, id, prefix + [w], index[w := postings])
  {
    var next := index[w := postings];
    forall x, d | x in next && d in next[x]
      ensures if d == id then x in prefix + [w]
              else x in base && d in base[x] && next[x][d] == base[x][d]
    {
      if x == w && d != id {
        assert d in index[w];
      }
    }
  }

  lemma PrefixCountedStep(id: int, prefix: seq<string>, w: string, inv: real,
                          index: map<string, map<int, real>>)
    requires PrefixCounted(id, prefix, inv, index)
    requires forall x | x in index && id in index[x] :: x in prefix
    ensures
      var postings := if w in index then index[w] else map[];
      var freq := if id in postings then postings[id] else 0.0;
      PrefixCounted(id, prefix + [w], inv, index[w := postings[id := freq + inv]])
  {
    var postings := if w in index then index[w] else map[];
    var freq := if id in postings then postings[id] else 0.0;
    var next := index[w := postings[id := freq + inv]];
    var counts := multiset(prefix);
    assert multiset(prefix + [w]) == counts + multiset{w};
    assert freq == Repeated(counts[w], inv) by {
      if w !in prefix {
        assert counts[w] == 0;
      }
    }
    forall x | x in prefix + [w]
      ensures x in next && id in next[x] && next[x][id] == Repeated(multiset(prefix + [w])[x], inv)
    {
      if x != w {
        assert x in prefix;
      }
    }
  }

  /**
   * Once every word of the new document is indexed, the index matches the
   * document words with the new document added, and the postings of every
   * other document are as before.
   */
  lemma IndexedDocument(oldWords: map<int, seq<string>>, base: map<string, map<int, real>>, id: int,
                        words: seq<string>, stopWords: set<string>, index: map<string, map<int, real>>)
    requires IndexMatches(base, oldWords, stopWords) && id !in oldWords
    requires forall w | w in words :: w != [] && w !in stopWords
    requires PartlyIndexed(base, id, words, if |words| > 0 then 1.0 / |words| as real else 0.0, index)
    ensures IndexMatches(index, oldWords[id := words], stopWords)
    ensures forall x, d | d != id :: (x in index && d in index[x]) == (x in base && d in base[x])
    ensures forall x, d | d != id && x in index && d in index[x] :: index[x][d] == base[x][d]
  {
    var inv := if |words| > 0 then 1.0 / |words| as real else 0.0;
    IndexedFrequencies(oldWords, base, id, words, inv, index);
    IndexedWords(oldWords, base, id, words, stopWords, inv, index);
    IndexedNonEmpty(base, id, words, inv, index);
  }

  lemma IndexedFrequencies(oldWords: map<int, seq<string>>, base: map<string, map<int, real>>, id: int,
                           words: seq<string>, inv: real, index: map<string, map<int, real>>)
    requires PostingsMatch(base, oldWords)
    requires inv == if |words| > 0 then 1.0 / |words| as real else 0.0
    requires PartlyIndexed(base, id, words, inv, index)
    ensures PostingsMatch(index, oldWords[id := words])
  {
    forall w, d | w in index && d in index[w]
      ensures d in oldWords[id := words] && w in oldWords[id := words][d] &&
              index[w][d] == TermFrequency(oldWords[id := words][d], w)
    {
      if d == id {
        RepeatedShare(multiset(words)[w], |words|);
      } else {
        assert w in base && d in base[w];
      }
    }
  }

  lemma IndexedWords(oldWords: map<int, seq<string>>, base: map<string, map<int, real>>, id: int,
                     words: seq<string>, stopWords: set<string>, inv: real,
                     index: map<string, map<int, real>>)
    requires WordsIndexed(base, oldWords, stopWords)
    requires forall w | w in words :: w != [] && w !in stopWords
    requires BaseKept(base, words, index) && PrefixCounted(id, words, inv, index)
    ensures WordsIndexed(index, oldWords[id := words], stopWords)
  {
    var docWords := oldWords[id := words];
    forall d, w | d in docWords && w in docWords[d]
      ensures w != [] && w !in stopWords && w in index && d in index[w]
    {
      if d == id {
        assert docWords[d] == words;
        assert w in words;
      } else {
        assert docWords[d] == oldWords[d];
        assert w in base && d in base[w];
      }
    }
  }

  lemma IndexedNonEmpty(base: map<string, map<int, real>>, id: int, words: seq<string>, inv: real,
                        index: map<string, map<int, real>>)
    requires PostingsNonEmpty(base)
    requires PartlyIndexed(base, id, words, inv, index)
    ensures PostingsNonEmpty(index)
  {
    forall w | w in index
      ensures |index[w]| > 0
    {
      if w in base {
        assert base[w] != map[];
        var d := Pick(base[w]);
        assert d in base[w];
        assert d in index[w];
      } else {
        assert id in index[w];
      }
    }
  }

  /** Some element of a non-empty set, the next one an iteration visits. */
  method SomeElement<T>(s: set<T>) returns (x: T)
    requires s != {}
    ensures x in s
  {
    x :| x in s;
  }

  /** The least id of a non-empty set, the next one an ascending walk over an id-keyed map visits. */
  method MinId(s: set<int>) returns (m: int)
    requires s != {}
    ensures m in s
    ensures forall x | x in s :: m <= x
  {
    m := SomeElement(s);
    var rest := s - {m};
    while rest != {}
      invariant rest <= s && m in s && m !in rest
      invariant forall x | x in s - rest :: m <= x
      decreases rest
    {
      var x := SomeElement(rest);
      assert s - (rest - {x}) == (s - rest) + {x};
      if x < m {
        m := x;
      }
      rest := rest - {x};
    }
    assert s - rest == s;
  }

  lemma {:induction false} SubsetCardinality<T>(a: set<T>, b: set<T>)
    requires a <= b
    ensures |a| <= |b|
    ensures |a| == |b| <==> a == b
    decreases b
  {
    if a != {} {
      var x :| x in a;
      SubsetCardinality(a - {x}, b - {x});
      assert |a| == |a - {x}| + 1 && |b| == |b - {x}| + 1;
      if a - {x} == b - {x} {
        assert a == (a - {x}) + {x} && b == (b - {x}) + {x};
      }
    } else if b != {} {
      var y :| y in b;
    }
  }

  /** Distinct ids: as many ids as results. */
  lemma {:induction false} DistinctIdsCardinality(docs: seq<Document>)
    requires DistinctIds(docs)
    ensures |set i | 0 <= i < |docs| :: docs[i].id| == |docs|
  {
    if docs != [] {
      var init := docs[..|docs| - 1];
      DistinctIdsCardinality(init);
      var ids := set i | 0 <= i < |docs| :: docs[i].id;
      var initIds := set i | 0 <= i < |init| :: init[i].id;
      assert ids == initIds + {docs[|docs| - 1].id};
      assert docs[|docs| - 1].id !in initIds;
    }
  }

  /** A server with the given stop words, failing when a non-empty one holds a control character. */
  method NewSearchServer(stopWords: seq<string>, ln: real -> real) returns (r: Result<SearchServer>)
    ensures r.Ok? <==> forall w | w in stopWords && w != [] :: IsValidWord(w)
    ensures r.Err? ==> r.error == InvalidArgument
    ensures r.Ok? ==>
      && fresh(r.value) && r.value.Valid()
      && r.value.stopWords == (set w | w in stopWords && w != [])
      && r.value.ln == ln
      && r.value.GetDocumentCount() == 0
      && r.value.wordToDocumentFreqs == map[]
  {
    var unique := MakeUniqueNonEmptyStrings(stopWords);
    var rest := unique;
    while rest != {}
      invariant rest <= unique
      invariant forall w | w in unique - rest :: IsValidWord(w)
      decreases rest
    {
      var word :| word in rest;
      if !IsValidWord(word) {
        return Err(InvalidArgument);
      }
      rest := rest - {word};
    }
    var server := new SearchServer(unique, ln);
    return Ok(server);
  }

  /** A server whose stop words are the tokens of a text. */
  method NewSearchServerFromText(stopWordsText: string, ln: real -> real) returns (r: Result<SearchServer>)
    ensures r.Ok? <==> forall w | w in Words(stopWordsText) :: IsValidWord(w)
    ensures r.Err? ==> r.error == InvalidArgument
    ensures r.Ok? ==>
      && fresh(r.value) && r.value.Valid()
      && r.value.stopWords == (set w | w in Words(stopWordsText))
      && r.value.ln == ln
      && r.value.GetDocumentCount() == 0
      && r.value.wordToDocumentFreqs == map[]
  {
    var words := SplitIntoWords(stopWordsText);
    r := NewSearchServer(words, ln);
  }

  /** The distinct non-empty strings of a list. */
  method MakeUniqueNonEmptyStrings(strings: seq<string>) returns (unique: set<string>)
    ensures forall s :: s in unique <==> s in strings && s != []
  {
    unique := {};
    var i := 0;
    while i < |strings|
      invariant 0 <= i <= |strings|
      invariant forall s :: s in unique <==> s in strings[..i] && s != []
    {
      assert strings[..i + 1] == strings[..i] + [strings[i]];
      if strings[i] != [] {
        unique := unique + {strings[i]};
      }
      i := i + 1;
    }
    assert strings[..i] == strings;
  }
}
