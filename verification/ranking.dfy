/**
 Ranked retrieval and per-document matching.

 `FindAllDocuments` scores every stored document that holds a plus word of
 the query, passes the caller's predicate and holds no minus word; a
 document's relevance is the sum, over the plus words it holds, of the
 word's term frequency in it times the word's inverse document frequency
 ln(N / df). The natural logarithm is a parameter `ln`: the model proves
 nothing about its values, only how they are combined.

 `FindTopDocuments` sorts those results by relevance, then rating (both
 descending) and keeps the first `MaxResultDocumentCount`.
 */
module Ranking {
  import opened Tokenizer
  import opened SearchServer
  import opened QueryParser
  import OrderedSets
  import KeyOrders

  /** The source's `MAX_RESULT_DOCUMENT_COUNT`. */
  const MaxResultDocumentCount: nat := 5

  datatype Document = Document(id: int, relevance: real, rating: int)

  /** The caller's filter over (id, status, rating). */
  type DocumentPredicate = (int, DocumentStatus, int) -> bool

  /** Relevance accumulated so far, per document id. */
  type Scores = map<int, real>

  /** `w` is indexed and its posting list holds `id`. */
  predicate Hit(s: Server, w: string, id: int) {
    w in s.index && id in s.index[w]
  }

  /** Some word of `ws` is indexed for `id`. */
  predicate AnyHit(s: Server, ws: seq<string>, id: int) {
    exists i :: 0 <= i < |ws| && Hit(s, ws[i], id)
  }

  /** `id` is stored and the predicate accepts its status and rating. */
  predicate Accepts(s: Server, pred: DocumentPredicate, id: int) {
    id in s.documents && pred(id, s.documents[id].status, s.documents[id].rating)
  }

  /** The documents a query retrieves: accepted, holding a plus word and
      no minus word. */
  predicate IsCandidate(s: Server, q: Query, pred: DocumentPredicate, id: int) {
    Accepts(s, pred, id) && AnyHit(s, q.plus, id) && !AnyHit(s, q.minus, id)
  }

  /** Inverse document frequency of an indexed word: ln of (stored
      documents) / (documents holding the word). */
  function Idf(s: Server, w: string, ln: real -> real): real
    requires Valid(s) && w in s.index
  {
    PostingNonEmpty(s, w);
    ln((|s.documents| as real) / (|s.index[w]| as real))
  }

  lemma PostingNonEmpty(s: Server, w: string)
    requires Valid(s) && w in s.index
    ensures |s.index[w]| > 0
  {
    assert ValidPosting(s, w);
    assert |s.index[w].Keys| > 0;
  }

  /** What word `w` adds to the relevance of document `id`. */
  function Contribution(s: Server, w: string, id: int, ln: real -> real): real
    requires Valid(s)
  {
    if Hit(s, w, id) then s.index[w][id] * Idf(s, w, ln) else 0.0
  }

  /** Reference definition of relevance: the contributions of the plus
      words, summed. */
  function Relevance(s: Server, plus: seq<string>, id: int, ln: real -> real): real
    requires Valid(s)
  {
    if plus == [] then 0.0 else Contribution(s, plus[0], id, ln) + Relevance(s, plus[1..], id, ln)
  }

  function Get(acc: Scores, id: int): real {
    if id in acc then acc[id] else 0.0
  }

  /** The inner loop for one plus word `w`, over the ids of its posting
      list in increasing order (the iteration order of the source's
      `std::map<int, double>`): an accepted document gains the word's
      contribution, its entry starting at 0; other documents are skipped. */
  function AddPostingScores(s: Server, w: string, ids: seq<int>, pred: DocumentPredicate,
                            ln: real -> real, acc: Scores): (r: Scores)
    requires Valid(s) && w in s.index
    requires OrderedSets.StrictlyIncreasing(ids, KeyOrders.IntLess)
    requires forall i :: 0 <= i < |ids| ==> ids[i] in s.index[w]
    ensures forall id :: id in r <==> id in acc || (id in ids && Accepts(s, pred, id))
    ensures forall id :: id in r ==>
      r[id] == Get(acc, id) + (if id in ids && Accepts(s, pred, id) then Contribution(s, w, id, ln) else 0.0)
    decreases |ids|
  {
    if ids == [] then acc
    else
      var id := ids[0];
      var acc' := ScoreOne(s, w, id, pred, ln, acc);
      OrderedSets.HeadIsLeast(ids, KeyOrders.IntLess);
      var r := AddPostingScores(s, w, ids[1..], pred, ln, acc');
      PostingStep(s, w, ids, pred, ln, acc, acc', r);
      r
  }

  /** The loop body for one posting: when the predicate accepts the
      document, its entry (0 if absent) grows by the term frequency times
      the word's inverse document frequency. */
  function ScoreOne(s: Server, w: string, id: int, pred: DocumentPredicate, ln: real -> real,
                    acc: Scores): Scores
    requires Valid(s) && w in s.index && id in s.index[w]
  {
    if Accepts(s, pred, id) then acc[id := Get(acc, id) + s.index[w][id] * Idf(s, w, ln)] else acc
  }

  /** One document of the inner loop: what the rest of the posting list
      yields after scoring the first id is what the whole list yields. */
  lemma PostingStep(s: Server, w: string, ids: seq<int>, pred: DocumentPredicate, ln: real -> real,
                    acc: Scores, acc': Scores, r: Scores)
    requires Valid(s) && w in s.index && ids != []
    requires forall i :: 0 <= i < |ids| ==> ids[i] in s.index[w]
    requires ids[0] !in ids[1..]
    requires acc' == ScoreOne(s, w, ids[0], pred, ln, acc)
    requires forall id :: id in r <==> id in acc' || (id in ids[1..] && Accepts(s, pred, id))
    requires forall id :: id in r ==>
      r[id] == Get(acc', id) + (if id in ids[1..] && Accepts(s, pred, id) then Contribution(s, w, id, ln) else 0.0)
    ensures forall id :: id in r <==> id in acc || (id in ids && Accepts(s, pred, id))
    ensures forall id :: id in r ==>
      r[id] == Get(acc, id) + (if id in ids && Accepts(s, pred, id) then Contribution(s, w, id, ln) else 0.0)
  {
    assert forall id :: id in ids <==> id == ids[0] || id in ids[1..] by {
      assert ids == [ids[0]] + ids[1..];
    }
    assert Hit(s, w, ids[0]);
  }

  /** The ids of a word's posting list in increasing order. */
  function PostingIds(s: Server, w: string): (ids: seq<int>)
    requires Valid(s) && w in s.index
    ensures OrderedSets.StrictlyIncreasing(ids, KeyOrders.IntLess)
    ensures forall id :: id in ids <==> id in s.index[w]
  {
    assert ValidPosting(s, w);
    var ids := AscendingIds(s, s.index[w]);
    assert forall id :: id in ids <==> id in OrderedSets.Elems(ids);
    ids
  }

  /** The loop for one plus word: an indexed word scores the accepted
      documents of its posting list; a word the index lacks is skipped. */
  function AddWordScores(s: Server, w: string, pred: DocumentPredicate, ln: real -> real,
                         acc: Scores): (r: Scores)
    requires Valid(s)
    ensures forall id :: id in r <==> id in acc || (Hit(s, w, id) && Accepts(s, pred, id))
    ensures forall id :: id in r ==>
      r[id] == Get(acc, id) + (if Accepts(s, pred, id) then Contribution(s, w, id, ln) else 0.0)
  {
    if w !in s.index then acc
    else
      WordScores(s, w, pred, ln, acc);
      AddPostingScores(s, w, PostingIds(s, w), pred, ln, acc)
  }

  /** Running the inner loop over the whole posting list scores exactly
      the accepted documents that hold the word. */
  lemma WordScores(s: Server, w: string, pred: DocumentPredicate, ln: real -> real, acc: Scores)
    requires Valid(s) && w in s.index
    ensures var r := AddPostingScores(s, w, PostingIds(s, w), pred, ln, acc);
      && (forall id :: id in r <==> id in acc || (Hit(s, w, id) && Accepts(s, pred, id)))
      && (forall id :: id in r ==>
            r[id] == Get(acc, id) + (if Accepts(s, pred, id) then Contribution(s, w, id, ln) else 0.0))
  {
    var ids := PostingIds(s, w);
    assert forall id :: !Hit(s, w, id) ==> Contribution(s, w, id, ln) == 0.0;
    assert forall id :: id in ids <==> Hit(s, w, id);
  }

  /** The outer loop over the plus words, in order. */
  function AddPlusScores(s: Server, plus: seq<string>, pred: DocumentPredicate, ln: real -> real,
                         acc: Scores): (r: Scores)
    requires Valid(s)
    decreases |plus|
  {
    if plus == [] then acc
    else AddPlusScores(s, plus[1..], pred, ln, AddWordScores(s, plus[0], pred, ln, acc))
  }

  /** The plus-word loop scores exactly the accepted documents holding a
      plus word, each with its relevance added to what it had. */
  lemma {:induction false} AddPlusScoresSpec(s: Server, plus: seq<string>, pred: DocumentPredicate,
                                             ln: real -> real, acc: Scores)
    requires Valid(s)
    ensures var r := AddPlusScores(s, plus, pred, ln, acc);
      && (forall id :: id in r <==> id in acc || (Accepts(s, pred, id) && AnyHit(s, plus, id)))
      && (forall id :: id in r ==>
            r[id] == Get(acc, id) + (if Accepts(s, pred, id) then Relevance(s, plus, id, ln) else 0.0))
    decreases |plus|
  {
    if plus != [] {
      var acc' := AddWordScores(s, plus[0], pred, ln, acc);
      AddPlusScoresSpec(s, plus[1..], pred, ln, acc');
      forall id ensures AnyHit(s, plus, id) <==> Hit(s, plus[0], id) || AnyHit(s, plus[1..], id) {
        AnyHitCons(s, plus, id);
      }
    }
  }

  lemma AnyHitCons(s: Server, ws: seq<string>, id: int)
    requires ws != []
    ensures AnyHit(s, ws, id) <==> Hit(s, ws[0], id) || AnyHit(s, ws[1..], id)
  {
    if AnyHit(s, ws, id) && !Hit(s, ws[0], id) {
      var i :| 0 <= i < |ws| && Hit(s, ws[i], id);
      assert ws[1..][i - 1] == ws[i];
    }
    if AnyHit(s, ws[1..], id) {
      var i :| 0 <= i < |ws[1..]| && Hit(s, ws[1..][i], id);
      assert ws[i + 1] == ws[1..][i];
    }
  }

  /** The minus-word loop: every document of a minus word's posting list
      is erased. */
  function RemoveMinusScores(s: Server, minus: seq<string>, acc: Scores): (r: Scores)
    decreases |minus|
  {
    if minus == [] then acc
    else
      var w := minus[0];
      RemoveMinusScores(s, minus[1..], if w in s.index then acc - s.index[w].Keys else acc)
  }

  /** Erasing keeps exactly the documents holding no minus word, with
      their scores. */
  lemma {:induction false} RemoveMinusScoresSpec(s: Server, minus: seq<string>, acc: Scores)
    ensures var r := RemoveMinusScores(s, minus, acc);
      && (forall id :: id in r <==> id in acc && !AnyHit(s, minus, id))
      && (forall id :: id in r ==> r[id] == acc[id])
    decreases |minus|
  {
    if minus != [] {
      var w := minus[0];
      RemoveMinusScoresSpec(s, minus[1..], if w in s.index then acc - s.index[w].Keys else acc);
      forall id ensures AnyHit(s, minus, id) <==> Hit(s, minus[0], id) || AnyHit(s, minus[1..], id) {
        AnyHitCons(s, minus, id);
      }
    }
  }

  /** Both loops of the source's `FindAllDocuments`: plus words score,
      then minus words erase. */
  function ScoreQuery(s: Server, q: Query, pred: DocumentPredicate, ln: real -> real): (acc: Scores)
    requires Valid(s)
  {
    RemoveMinusScores(s, q.minus, AddPlusScores(s, q.plus, pred, ln, map[]))
  }

  /** The scored documents are exactly the candidates, each with its
      relevance. */
  lemma ScoreQuerySpec(s: Server, q: Query, pred: DocumentPredicate, ln: real -> real)
    requires Valid(s)
    ensures forall id :: id in ScoreQuery(s, q, pred, ln) <==> IsCandidate(s, q, pred, id)
    ensures forall id :: id in ScoreQuery(s, q, pred, ln) ==>
      id in s.documents && ScoreQuery(s, q, pred, ln)[id] == Relevance(s, q.plus, id, ln)
  {
    var plus := AddPlusScores(s, q.plus, pred, ln, map[]);
    AddPlusScoresSpec(s, q.plus, pred, ln, map[]);
    RemoveMinusScoresSpec(s, q.minus, plus);
  }

  /** The keys of `acc` in increasing order (the iteration order of the
      source's `std::map<int, double>`), collected from the insertion
      order of the stored ids. */
  function AscendingIds(s: Server, acc: Scores): (r: seq<int>)
    requires Valid(s)
    requires forall id :: id in acc ==> id in s.documents
    ensures OrderedSets.StrictlyIncreasing(r, KeyOrders.IntLess)
    ensures OrderedSets.Elems(r) == acc.Keys
  {
    KeyOrders.IntLessIsStrictTotalOrder();
    var kept := OrderedSets.Filter(s.documentIds, id => id in acc);
    assert OrderedSets.Elems(kept) == acc.Keys by {
      forall id | id in acc ensures id in OrderedSets.Elems(kept) {
        assert id in s.documentIds;
      }
    }
    OrderedSets.FromSeq([], kept, KeyOrders.IntLess)
  }

  /** The matched documents of a parsed query, in increasing id order:
      exactly the candidates, each once, carrying its stored rating and
      its relevance; an empty plus set finds nothing. */
  function FindAllDocuments(s: Server, q: Query, pred: DocumentPredicate, ln: real -> real): (r: seq<Document>)
    requires Valid(s)
    ensures forall i :: 0 <= i < |r| ==> IsCandidate(s, q, pred, r[i].id)
    ensures forall id :: IsCandidate(s, q, pred, id) ==> exists i :: 0 <= i < |r| && r[i].id == id
    ensures forall i, j :: 0 <= i < j < |r| ==> r[i].id < r[j].id
    ensures forall i :: 0 <= i < |r| ==>
      && r[i].id in s.documents
      && r[i].rating == s.documents[r[i].id].rating
      && r[i].relevance == Relevance(s, q.plus, r[i].id, ln)
    ensures q.plus == [] ==> r == []
  {
    FindAllDocumentsFacts(s, q, pred, ln);
    Retrieve(s, q, pred, ln)
  }

  /** The results: one per scored id, in increasing id order. */
  function Retrieve(s: Server, q: Query, pred: DocumentPredicate, ln: real -> real): seq<Document>
    requires Valid(s)
  {
    var acc := ScoreQuery(s, q, pred, ln);
    ScoreQuerySpec(s, q, pred, ln);
    var ids := AscendingIds(s, acc);
    assert forall i :: 0 <= i < |ids| ==> ids[i] in OrderedSets.Elems(ids);
    ToDocuments(s, acc, ids)
  }

  lemma FindAllDocumentsFacts(s: Server, q: Query, pred: DocumentPredicate, ln: real -> real)
    requires Valid(s)
    ensures var r := Retrieve(s, q, pred, ln);
      && (forall i :: 0 <= i < |r| ==> IsCandidate(s, q, pred, r[i].id))
      && (forall id :: IsCandidate(s, q, pred, id) ==> exists i :: 0 <= i < |r| && r[i].id == id)
      && (forall i, j :: 0 <= i < j < |r| ==> r[i].id < r[j].id)
      && (forall i :: 0 <= i < |r| ==>
            && r[i].id in s.documents
            && r[i].rating == s.documents[r[i].id].rating
            && r[i].relevance == Relevance(s, q.plus, r[i].id, ln))
      && (q.plus == [] ==> r == [])
  {
    var acc := ScoreQuery(s, q, pred, ln);
    ScoreQuerySpec(s, q, pred, ln);
    EmptyPlusScoresNothing(s, q, pred, ln);
    var ids := AscendingIds(s, acc);
    assert forall i :: 0 <= i < |ids| ==> ids[i] in OrderedSets.Elems(ids);
    var r := ToDocuments(s, acc, ids);
    ResultsOfScores(acc, ids, r, id => IsCandidate(s, q, pred, id), id => Relevance(s, q.plus, id, ln));
  }

  /** The results list every scored id once, in increasing order, with
      its score. */
  lemma ResultsOfScores(acc: Scores, ids: seq<int>, r: seq<Document>, scored: int -> bool, score: int -> real)
    requires forall id :: id in acc <==> scored(id)
    requires forall id :: id in acc ==> acc[id] == score(id)
    requires OrderedSets.StrictlyIncreasing(ids, KeyOrders.IntLess)
    requires OrderedSets.Elems(ids) == acc.Keys
    requires |r| == |ids|
    requires forall i :: 0 <= i < |r| ==> r[i].id == ids[i] && r[i].relevance == acc[ids[i]]
    ensures forall i :: 0 <= i < |r| ==> scored(r[i].id) && r[i].relevance == score(r[i].id)
    ensures forall id :: scored(id) ==> exists i :: 0 <= i < |r| && r[i].id == id
    ensures forall i, j :: 0 <= i < j < |r| ==> r[i].id < r[j].id
    ensures acc == map[] ==> r == []
  {
    forall id | scored(id) ensures exists i :: 0 <= i < |r| && r[i].id == id {
      assert id in OrderedSets.Elems(ids);
      var i :| 0 <= i < |ids| && ids[i] == id;
      assert r[i].id == id;
    }
    forall i | 0 <= i < |r| ensures scored(r[i].id) {
      assert ids[i] in OrderedSets.Elems(ids);
    }
    if acc == map[] {
      OrderedSets.ElemsEmpty(ids);
    }
  }

  /** One result per id, with its score and stored rating. */
  function ToDocuments(s: Server, acc: Scores, ids: seq<int>): (r: seq<Document>)
    requires forall i :: 0 <= i < |ids| ==> ids[i] in acc && ids[i] in s.documents
    ensures |r| == |ids|
    ensures forall i :: 0 <= i < |r| ==>
      r[i].id == ids[i] && r[i].relevance == acc[ids[i]] &&
      r[i].rating == s.documents[ids[i]].rating
    decreases |ids|
  {
    if ids == [] then []
    else [Document(ids[0], acc[ids[0]], s.documents[ids[0]].rating)] + ToDocuments(s, acc, ids[1..])
  }

  lemma EmptyPlusScoresNothing(s: Server, q: Query, pred: DocumentPredicate, ln: real -> real)
    requires Valid(s)
    ensures q.plus == [] ==> ScoreQuery(s, q, pred, ln) == map[]
  {
    ScoreQuerySpec(s, q, pred, ln);
    var m := ScoreQuery(s, q, pred, ln);
    if q.plus == [] {
      forall id ensures id !in m.Keys {
        assert !AnyHit(s, q.plus, id);
      }
      assert m.Keys == {};
    }
  }

  /** `a` may come before `b` in a ranking: higher relevance first, and
      on equal relevance the higher rating. */
  predicate RanksAtLeast(a: Document, b: Document) {
    a.relevance > b.relevance || (a.relevance == b.relevance && a.rating >= b.rating)
  }

  predicate SortedByRank(ds: seq<Document>) {
    forall i, j :: 0 <= i < j < |ds| ==> RanksAtLeast(ds[i], ds[j])
  }

  function InsertByRank(d: Document, ds: seq<Document>): (r: seq<Document>)
    requires SortedByRank(ds)
    ensures SortedByRank(r)
    ensures multiset(r) == multiset(ds) + multiset{d}
  {
    if ds == [] then [d]
    else if RanksAtLeast(d, ds[0]) then [d] + ds
    else
      var rest := InsertByRank(d, ds[1..]);
      RankBehindHead(d, ds, rest);
      [ds[0]] + rest
  }

  lemma RankBehindHead(d: Document, ds: seq<Document>, rest: seq<Document>)
    requires SortedByRank(ds) && ds != [] && !RanksAtLeast(d, ds[0])
    requires SortedByRank(rest) && multiset(rest) == multiset(ds[1..]) + multiset{d}
    ensures SortedByRank([ds[0]] + rest)
    ensures multiset([ds[0]] + rest) == multiset(ds) + multiset{d}
  {
    assert ds == [ds[0]] + ds[1..];
    forall k | 0 <= k < |rest| ensures RanksAtLeast(ds[0], rest[k]) {
      assert rest[k] in multiset(rest);
      if rest[k] != d {
        assert rest[k] in multiset(ds[1..]);
        var j :| 0 <= j < |ds[1..]| && ds[1..][j] == rest[k];
        assert ds[j + 1] == rest[k];
      }
    }
    forall i, j | 0 <= i < j < |[ds[0]] + rest|
      ensures RanksAtLeast(([ds[0]] + rest)[i], ([ds[0]] + rest)[j])
    {
      assert ([ds[0]] + rest)[j] == rest[j - 1];
      if i > 0 {
        assert ([ds[0]] + rest)[i] == rest[i - 1];
      }
    }
  }

  /** Orders results by rank: exact relevance, then rating, both
      descending. The source treats relevances within `EPSILON_` as equal
      and orders those by rating, so where relevances differ by less than
      `EPSILON_` this order can differ from the source's. Results of equal
      relevance and rating come in one fixed order, where the source's
      unstable `std::sort` may use any. */
  function SortByRank(ds: seq<Document>): (r: seq<Document>)
    ensures SortedByRank(r)
    ensures multiset(r) == multiset(ds)
  {
    if ds == [] then []
    else
      assert ds == [ds[0]] + ds[1..];
      InsertByRank(ds[0], SortByRank(ds[1..]))
  }

  function Min(a: nat, b: nat): nat {
    if a < b then a else b
  }

  /** The best-ranked documents of a raw query under a predicate. Fails
      exactly when the query does not parse; otherwise returns at most
      `MaxResultDocumentCount` of the documents `FindAllDocuments` finds,
      sorted by rank, and every document left out ranks no higher than
      every one returned. */
  function FindTopDocuments(s: Server, rawQuery: string, pred: DocumentPredicate, ln: real -> real)
    : (r: Result<seq<Document>>)
    requires Valid(s)
    ensures r.Ok? <==> ParseQuery(s, rawQuery).Ok?
    ensures r.Err? ==> r.error == InvalidQuery
    ensures r.Ok? ==> var all := FindAllDocuments(s, ParseQuery(s, rawQuery).value, pred, ln);
      && |r.value| == Min(MaxResultDocumentCount, |all|)
      && multiset(r.value) <= multiset(all)
      && SortedByRank(r.value)
      && (forall x :: x in multiset(all) - multiset(r.value) ==>
            forall i :: 0 <= i < |r.value| ==> RanksAtLeast(r.value[i], x))
  {
    match ParseQuery(s, rawQuery)
    case Err(e) => Err(e)
    case Ok(q) =>
      var sorted := SortByRank(FindAllDocuments(s, q, pred, ln));
      var top := if |sorted| > MaxResultDocumentCount then sorted[..MaxResultDocumentCount] else sorted;
      TruncatedRanking(sorted, top);
      Ok(top)
  }

  lemma TruncatedRanking(sorted: seq<Document>, top: seq<Document>)
    requires SortedByRank(sorted)
    requires top == if |sorted| > MaxResultDocumentCount then sorted[..MaxResultDocumentCount] else sorted
    ensures |top| == Min(MaxResultDocumentCount, |sorted|)
    ensures multiset(top) <= multiset(sorted)
    ensures SortedByRank(top)
    ensures forall x :: x in multiset(sorted) - multiset(top) ==>
      forall i :: 0 <= i < |top| ==> RanksAtLeast(top[i], x)
  {
    var k := |top|;
    assert sorted == top + sorted[k..];
    assert multiset(sorted) == multiset(top) + multiset(sorted[k..]);
    forall x | x in multiset(sorted) - multiset(top)
      ensures forall i :: 0 <= i < |top| ==> RanksAtLeast(top[i], x)
    {
      assert x in multiset(sorted[k..]);
      var j :| 0 <= j < |sorted[k..]| && sorted[k..][j] == x;
      assert sorted[k + j] == x;
    }
  }

  /** Every returned document is one `FindAllDocuments` finds: a
      candidate of the parsed query with its stored rating and its
      relevance. */
  lemma TopDocumentsAreCandidates(s: Server, rawQuery: string, pred: DocumentPredicate, ln: real -> real)
    requires Valid(s)
    requires ParseQuery(s, rawQuery).Ok?
    ensures var q := ParseQuery(s, rawQuery).value;
      var r := FindTopDocuments(s, rawQuery, pred, ln).value;
      forall i :: 0 <= i < |r| ==>
        && IsCandidate(s, q, pred, r[i].id)
        && r[i].rating == s.documents[r[i].id].rating
        && r[i].relevance == Relevance(s, q.plus, r[i].id, ln)
  {
    var q := ParseQuery(s, rawQuery).value;
    var all := FindAllDocuments(s, q, pred, ln);
    var r := FindTopDocuments(s, rawQuery, pred, ln).value;
    forall i | 0 <= i < |r|
      ensures IsCandidate(s, q, pred, r[i].id) && r[i].rating == s.documents[r[i].id].rating
      ensures r[i].relevance == Relevance(s, q.plus, r[i].id, ln)
    {
      assert r[i] in multiset(r);
      assert r[i] in multiset(all);
      var j :| 0 <= j < |all| && all[j] == r[i];
    }
  }

  /** The predicate of the status overload. */
  function StatusIs(status: DocumentStatus): DocumentPredicate {
    (id: int, documentStatus: DocumentStatus, rating: int) => documentStatus == status
  }

  /** The predicate that accepts every document. */
  function AcceptAll(): DocumentPredicate {
    (id: int, documentStatus: DocumentStatus, rating: int) => true
  }

  /** Filtering by status keeps exactly the unfiltered candidates that
      have that status. */
  lemma StatusFilterSelects(s: Server, q: Query, status: DocumentStatus, id: int)
    ensures IsCandidate(s, q, StatusIs(status), id) <==>
      IsCandidate(s, q, AcceptAll(), id) && s.documents[id].status == status
  {
  }

  /** The status overload: only documents with the given status are
      returned, and they are the best-ranked among those. */
  function FindTopDocumentsByStatus(s: Server, rawQuery: string, status: DocumentStatus, ln: real -> real)
    : (r: Result<seq<Document>>)
    requires Valid(s)
    ensures r.Ok? <==> ParseQuery(s, rawQuery).Ok?
    ensures r.Ok? ==> forall i :: 0 <= i < |r.value| ==>
      r.value[i].id in s.documents && s.documents[r.value[i].id].status == status
    ensures r.Ok? ==> r.value == FindTopDocuments(s, rawQuery, StatusIs(status), ln).value
  {
    var r := FindTopDocuments(s, rawQuery, StatusIs(status), ln);
    if r.Ok? then TopDocumentsAreCandidates(s, rawQuery, StatusIs(status), ln); r else r
  }

  /** The overload without a filter searches the ACTUAL documents only. */
  function FindTopDocumentsDefault(s: Server, rawQuery: string, ln: real -> real)
    : (r: Result<seq<Document>>)
    requires Valid(s)
    ensures r.Ok? <==> ParseQuery(s, rawQuery).Ok?
    ensures r.Ok? ==> forall i :: 0 <= i < |r.value| ==>
      r.value[i].id in s.documents && s.documents[r.value[i].id].status == Actual
    ensures r == FindTopDocumentsByStatus(s, rawQuery, Actual, ln)
  {
    FindTopDocumentsByStatus(s, rawQuery, Actual, ln)
  }

  /** The minus test of a parsed query for one document. */
  ghost predicate MinusHit(s: Server, rawQuery: string, id: int) {
    exists w :: w in MinusTerms(s, Words(rawQuery)) && Hit(s, w, id)
  }

  /** The plus words of a query that `id` holds, in increasing order,
      or none when it holds a minus word, together with its status.
      Fails for a malformed query first, then for an unknown id. */
  function MatchDocument(s: Server, rawQuery: string, id: int): (r: Result<(seq<string>, DocumentStatus)>)
    requires Valid(s)
    ensures r.Err? <==> ParseQuery(s, rawQuery).Err? || id !in s.documents
    ensures ParseQuery(s, rawQuery).Err? ==> r == Err(InvalidQuery)
    ensures ParseQuery(s, rawQuery).Ok? && id !in s.documents ==> r == Err(UnknownDocument)
    ensures r.Ok? ==> r.value.1 == s.documents[id].status
    ensures r.Ok? ==> Ordered(r.value.0)
    ensures r.Ok? ==> OrderedSets.Elems(r.value.0) ==
                      (if MinusHit(s, rawQuery, id) then {}
                       else set w | w in PlusTerms(s, Words(rawQuery)) && Hit(s, w, id))
  {
    match ParseQuery(s, rawQuery)
    case Err(e) => Err(e)
    case Ok(q) =>
      var matched := OrderedSets.Filter(q.plus, w => Hit(s, w, id));
      OrderedSets.FilterIncreasing(q.plus, w => Hit(s, w, id), KeyOrders.Less);
      var words := if AnyHit(s, q.minus, id) then [] else matched;
      MinusHitOfQuery(s, rawQuery, q, id);
      if id !in s.documents then Err(UnknownDocument)
      else Ok((words, s.documents[id].status))
  }

  lemma MinusHitOfQuery(s: Server, rawQuery: string, q: Query, id: int)
    requires ParseQuery(s, rawQuery) == Ok(q)
    ensures AnyHit(s, q.minus, id) <==> MinusHit(s, rawQuery, id)
  {
    if AnyHit(s, q.minus, id) {
      var i :| 0 <= i < |q.minus| && Hit(s, q.minus[i], id);
      assert q.minus[i] in OrderedSets.Elems(q.minus);
    }
    if MinusHit(s, rawQuery, id) {
      var w :| w in MinusTerms(s, Words(rawQuery)) && Hit(s, w, id);
      assert w in OrderedSets.Elems(q.minus);
      var i :| 0 <= i < |q.minus| && q.minus[i] == w;
    }
  }

  /** `AnyHit` depends only on the words' set. */
  lemma AnyHitOfElems(s: Server, ws: seq<string>, terms: set<string>, id: int)
    requires OrderedSets.Elems(ws) == terms
    ensures AnyHit(s, ws, id) <==> exists w :: w in terms && Hit(s, w, id)
  {
    if AnyHit(s, ws, id) {
      var i :| 0 <= i < |ws| && Hit(s, ws[i], id);
      assert ws[i] in OrderedSets.Elems(ws);
    }
    if exists w :: w in terms && Hit(s, w, id) {
      var w :| w in terms && Hit(s, w, id);
      assert w in OrderedSets.Elems(ws);
      var i :| 0 <= i < |ws| && ws[i] == w;
    }
  }

  /** Matching and searching agree: a stored document matches some word
      of a query exactly when an unfiltered search of that query finds
      it. */
  lemma MatchAgreesWithSearch(s: Server, rawQuery: string, id: int, ln: real -> real)
    requires Valid(s)
    requires ParseQuery(s, rawQuery).Ok? && id in s.documents
    ensures var q := ParseQuery(s, rawQuery).value;
      var all := FindAllDocuments(s, q, AcceptAll(), ln);
      MatchDocument(s, rawQuery, id).value.0 != [] <==> exists i :: 0 <= i < |all| && all[i].id == id
  {
    var q := ParseQuery(s, rawQuery).value;
    MatchIsCandidate(s, rawQuery, q, id);
    var all := FindAllDocuments(s, q, AcceptAll(), ln);
    assert IsCandidate(s, q, AcceptAll(), id) ==> exists i :: 0 <= i < |all| && all[i].id == id;
    if exists i :: 0 <= i < |all| && all[i].id == id {
      var i :| 0 <= i < |all| && all[i].id == id;
      assert IsCandidate(s, q, AcceptAll(), all[i].id);
    }
  }

  lemma MatchIsCandidate(s: Server, rawQuery: string, q: Query, id: int)
    requires Valid(s)
    requires ParseQuery(s, rawQuery) == Ok(q) && id in s.documents
    ensures MatchDocument(s, rawQuery, id).value.0 != [] <==> IsCandidate(s, q, AcceptAll(), id)
  {
    var words := MatchDocument(s, rawQuery, id).value.0;
    AnyHitOfElems(s, q.plus, PlusTerms(s, Words(rawQuery)), id);
    MinusHitOfQuery(s, rawQuery, q, id);
    OrderedSets.ElemsEmpty(words);
    assert Accepts(s, AcceptAll(), id);
    if words != [] {
      assert words[0] in OrderedSets.Elems(words);
    }
  }

  /** A document holding a minus word `w` of the query is never returned,
      whatever the predicate, and matches no word. */
  lemma MinusWordExcludes(s: Server, rawQuery: string, w: string, id: int, pred: DocumentPredicate,
                          ln: real -> real)
    requires Valid(s)
    requires ParseQuery(s, rawQuery).Ok?
    requires w in ParseQuery(s, rawQuery).value.minus && Hit(s, w, id)
    ensures forall i :: 0 <= i < |FindTopDocuments(s, rawQuery, pred, ln).value| ==>
      FindTopDocuments(s, rawQuery, pred, ln).value[i].id != id
    ensures id in s.documents ==> MatchDocument(s, rawQuery, id).value.0 == []
  {
    var q := ParseQuery(s, rawQuery).value;
    var i :| 0 <= i < |q.minus| && q.minus[i] == w;
    assert AnyHit(s, q.minus, id);
    MinusHitOfQuery(s, rawQuery, q, id);
    TopDocumentsAreCandidates(s, rawQuery, pred, ln);
    if id in s.documents {
      OrderedSets.ElemsEmpty(MatchDocument(s, rawQuery, id).value.0);
    }
  }
}
