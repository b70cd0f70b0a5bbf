/**
 * Values the search server hands out and keeps: search results, document
 * statuses, the per-document data, error kinds, the integer average of
 * ratings, and the ranking order of results.
 */
module Documents {

  /** The kinds of error the server reports instead of throwing. */
  datatype Error = InvalidArgument | OutOfRange

  datatype Result<T> = Ok(value: T) | Err(error: Error)

  datatype Outcome = Pass | Fail(error: Error)

  datatype DocumentStatus = Actual | Irrelevant | Banned | Removed

  /** One search result: the document id, its relevance and its rating. */
  datatype Document = Document(id: int, relevance: real, rating: int)

  /** What the server stores per document besides its words. */
  datatype DocumentData = DocumentData(rating: int, status: DocumentStatus)

  /** A filter on (document id, status, rating), as callers pass to the search. */
  type DocumentPredicate = (int, DocumentStatus, int) -> bool

  /** At most this many results are returned by one search. */
  const MaxResultDocumentCount: nat := 5

  /** Relevances closer than this are ranked by rating instead. */
  const Accuracy: real := 0.000001

  /** The sum of the ratings, added from the left as the standard library does. */
  function Sum(xs: seq<int>): int {
    if xs == [] then 0 else Sum(xs[..|xs| - 1]) + xs[|xs| - 1]
  }

  /** Integer division truncating toward zero, the rule of C++ `int` division. */
  function DivTruncate(a: int, b: int): (q: int)
    requires b > 0
    ensures a >= 0 ==> 0 <= q * b <= a < q * b + b
    ensures a < 0 ==> q * b - b < a <= q * b <= 0
  {
    if a >= 0 then
      DivisionBounds(a, b);
      a / b
    else
      DivisionBounds(-a, b);
      NegateProduct((-a) / b, b);
      -((-a) / b)
  }

  lemma DivisionBounds(a: int, b: int)
    requires a >= 0 && b > 0
    ensures 0 <= (a / b) * b <= a < (a / b) * b + b
  {
    var q, r := a / b, a % b;
    assert a == q * b + r && 0 <= r < b;
    assert q >= 0;
  }

  lemma NegateProduct(p: int, b: int)
    ensures (-p) * b == -(p * b)
  {
  }

  /**
   * The average of the ratings: zero for no ratings, otherwise their sum
   * divided by their count and truncated toward zero.
   */
  function ComputeAverageRating(ratings: seq<int>): (r: int)
    ensures ratings == [] ==> r == 0
    ensures ratings != [] && Sum(ratings) >= 0 ==>
      0 <= r * |ratings| <= Sum(ratings) < r * |ratings| + |ratings|
    ensures ratings != [] && Sum(ratings) < 0 ==>
      r * |ratings| - |ratings| < Sum(ratings) <= r * |ratings| <= 0
  {
    if ratings == [] then 0 else DivTruncate(Sum(ratings), |ratings|)
  }

  /** A negative average is rounded up toward zero, not down. */
  lemma AverageRatingTruncatesTowardZero()
    ensures ComputeAverageRating([7, 2, 7]) == 5
    ensures ComputeAverageRating([-7, -2, -7]) == -5
  {
    assert Sum([-7, -2, -7]) == -16 by {
      assert [-7, -2, -7][..2] == [-7, -2];
      assert [-7, -2][..1] == [-7];
      assert [-7][..0] == [];
    }
    assert Sum([7, 2, 7]) == 16 by {
      assert [7, 2, 7][..2] == [7, 2];
      assert [7, 2][..1] == [7];
      assert [7][..0] == [];
    }
  }

  function Abs(x: real): real {
    if x < 0.0 then -x else x
  }

  /**
   * The comparison the results are sorted with: higher relevance first, and
   * for relevances within Accuracy of each other, higher rating first.
   */
  predicate RanksBefore(lhs: Document, rhs: Document) {
    if Abs(lhs.relevance - rhs.relevance) < Accuracy then lhs.rating > rhs.rating
    else lhs.relevance > rhs.relevance
  }

  /** No two results carry the same document id. */
  predicate DistinctIds(docs: seq<Document>) {
    forall i, j | 0 <= i < j < |docs| :: docs[i].id != docs[j].id
  }

  /** Results in strictly ascending id order, as a walk over a map keyed by id yields them. */
  predicate AscendingIds(docs: seq<Document>) {
    forall i, j | 0 <= i < j < |docs| :: docs[i].id < docs[j].id
  }

  /** A result whose id is above all others can go at the end. */
  lemma AppendKeepsAscending(docs: seq<Document>, d: Document)
    requires AscendingIds(docs)
    requires forall i | 0 <= i < |docs| :: docs[i].id < d.id
    ensures AscendingIds(docs + [d])
  {
  }

  /** Inserting the next input element keeps a permutation of the prefix, with distinct ids. */
  lemma InsertKeepsPermutation(sorted: seq<Document>, docs: seq<Document>, i: nat, k: nat)
    requires i < |docs| && k <= |sorted|
    requires multiset(sorted) == multiset(docs[..i])
    requires DistinctIds(docs) ==> DistinctIds(sorted)
    ensures multiset(sorted[..k] + [docs[i]] + sorted[k..]) == multiset(docs[..i + 1])
    ensures DistinctIds(docs) ==> DistinctIds(sorted[..k] + [docs[i]] + sorted[k..])
  {
    assert sorted == sorted[..k] + sorted[k..];
    assert docs[..i + 1] == docs[..i] + [docs[i]];
    if DistinctIds(docs) {
      forall x | x in sorted
        ensures x.id != docs[i].id
      {
        assert x in multiset(docs[..i]);
        var j :| 0 <= j < i && docs[..i][j] == x;
      }
      InsertKeepsDistinct(sorted, k, docs[i]);
    }
  }

  /** A result whose id is new can go anywhere without repeating an id. */
  lemma InsertKeepsDistinct(sorted: seq<Document>, k: nat, d: Document)
    requires k <= |sorted| && DistinctIds(sorted)
    requires forall x | x in sorted :: x.id != d.id
    ensures DistinctIds(sorted[..k] + [d] + sorted[k..])
  {
    var s' := sorted[..k] + [d] + sorted[k..];
    forall a, b | 0 <= a < b < |s'|
      ensures s'[a].id != s'[b].id
    {
      var a' := if a < k then a else a - 1;
      var b' := if b <= k then b else b - 1;
      if a == k {
        assert s'[b] == sorted[b'];
      } else if b == k {
        assert s'[a] == sorted[a'];
      } else {
        assert s'[a] == sorted[a'] && s'[b] == sorted[b'];
      }
    }
  }

  /**
   * The sort of the results by RanksBefore, as an insertion sort: each
   * result goes before the first one it ranks before. The comparison is not
   * a strict weak order, so only the permutation is promised.
   */
  method SortByRank(docs: seq<Document>) returns (sorted: seq<Document>)
    ensures multiset(sorted) == multiset(docs)
    ensures DistinctIds(docs) ==> DistinctIds(sorted)
  {
    sorted := [];
    var i := 0;
    while i < |docs|
      invariant 0 <= i <= |docs|
      invariant multiset(sorted) == multiset(docs[..i])
      invariant DistinctIds(docs) ==> DistinctIds(sorted)
    {
      var d := docs[i];
      var k := 0;
      while k < |sorted| && !RanksBefore(d, sorted[k])
        invariant 0 <= k <= |sorted|
      {
        k := k + 1;
      }
      InsertKeepsPermutation(sorted, docs, i, k);
      sorted := sorted[..k] + [d] + sorted[k..];
      i := i + 1;
    }
    assert docs[..i] == docs;
  }

  /**
   * The tail of a search: the results sorted by rank, cut down to at most
   * MaxResultDocumentCount of them; every kept result is one of the input.
   */
  method SortAndTruncate(docs: seq<Document>) returns (top: seq<Document>)
    ensures |top| == if |docs| < MaxResultDocumentCount then |docs| else MaxResultDocumentCount
    ensures multiset(top) <= multiset(docs)
    ensures DistinctIds(docs) ==> DistinctIds(top)
  {
    top := SortByRank(docs);
    assert |top| == |multiset(top)| == |docs|;
    if |top| > MaxResultDocumentCount {
      assert top == top[..MaxResultDocumentCount] + top[MaxResultDocumentCount..];
      top := top[..MaxResultDocumentCount];
    }
  }
}
