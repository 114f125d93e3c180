/**
 The search server's document store and inverted index.

 A server holds a fixed set of stop words, the inverted index (word ->
 document id -> term frequency), the per-document rating and status, and
 the ids in the order they were added. The server is an immutable value:
 every operation that can fail returns a `Result`, and a failed
 `AddDocument` returns no server at all, so the caller's server is
 unchanged ("no partial mutation").

 Term frequencies are exact reals here (the source accumulates doubles).
 */
module SearchServer {
  import opened Tokenizer
  import OrderedSets
  import KeyOrders

  /** The source's closed status enumeration. */
  datatype DocumentStatus = Actual | Irrelevant | Banned | Removed

  datatype DocumentData = DocumentData(rating: int, status: DocumentStatus)

  /** The exceptions the source throws, one constructor per cause. */
  datatype Error =
    | InvalidStopWord      // constructor: a stop word holds a control character
    | NegativeId           // AddDocument: negative document id
    | DuplicateId          // AddDocument: the id is already stored
    | InvalidDocumentWord  // AddDocument: a token holds a control character
    | IndexOutOfRange      // GetDocumentId: no such insertion position
    | InvalidQuery         // query parsing: malformed token
    | UnknownDocument      // MatchDocument: the id is not stored

  datatype Result<T> = Ok(value: T) | Err(error: Error)

  /** word -> (document id -> term frequency) */
  type Index = map<string, map<int, real>>

  datatype Server = Server(
    stopWords: set<string>,
    index: Index,
    documents: map<int, DocumentData>,
    documentIds: seq<int>)

  /** No character of `w` is a control character (code below ' '). The
      source's test `c >= '\0' && c < ' '` is on a signed `char`, so bytes
      from 0x80 up count as valid; characters here are non-negative code
      points and only those below ' ' are rejected. */
  predicate IsValidWord(w: string) {
    forall i :: 0 <= i < |w| ==> w[i] >= ' '
  }

  /** Every token of `ws` is a valid word. */
  predicate AllValid(ws: seq<string>) {
    forall i :: 0 <= i < |ws| ==> IsValidWord(ws[i])
  }

  predicate IsStopWord(s: Server, w: string) {
    w in s.stopWords
  }

  predicate Distinct(xs: seq<int>) {
    forall i, j :: 0 <= i < j < |xs| ==> xs[i] != xs[j]
  }

  /** The class invariant the constructor establishes and `AddDocument`
      keeps: valid stop words; non-negative, stored, distinct ids listed
      exactly once; every indexed word is a valid, non-empty, non-stop
      word with a non-empty posting list of stored documents. */
  predicate Valid(s: Server) {
    ValidStore(s) && ValidIndex(s)
  }

  predicate ValidStore(s: Server) {
    && (forall w :: w in s.stopWords ==> IsValidWord(w))
    && (forall id :: id in s.documents ==> id >= 0)
    && (forall i :: 0 <= i < |s.documentIds| ==> s.documentIds[i] in s.documents)
    && (forall id :: id in s.documents ==> id in s.documentIds)
    && Distinct(s.documentIds)
  }

  predicate ValidIndex(s: Server) {
    forall w :: w in s.index ==> ValidPosting(s, w)
  }

  predicate ValidPosting(s: Server, w: string)
    requires w in s.index
  {
    && s.index[w].Keys != {}
    && w != [] && IsValidWord(w) && w !in s.stopWords
    && (forall id :: id in s.index[w] ==> id in s.documents)
  }

  /** The stop-word set built from a collection: its distinct non-empty
      strings (the source's `MakeUniqueNonEmptyStrings`, whose body is not
      part of this model, is taken at its name). */
  function UniqueNonEmpty(ws: seq<string>): (r: set<string>)
    ensures forall w :: w in r <==> w in ws && w != []
  {
    set w | w in ws && w != []
  }

  /** Construction from a collection of stop words: fails if any of them
      holds a control character; otherwise the server starts empty with
      the distinct non-empty ones as stop words. */
  function NewServer(stopWords: seq<string>): (r: Result<Server>)
    ensures r.Ok? <==> AllValid(stopWords)
    ensures r.Err? ==> r.error == InvalidStopWord
    ensures r.Ok? ==> Valid(r.value)
    ensures r.Ok? ==> forall w :: w in r.value.stopWords <==> w in stopWords && w != []
    ensures r.Ok? ==> r.value.documents == map[] && r.value.documentIds == [] && r.value.index == map[]
  {
    var words := UniqueNonEmpty(stopWords);
    if forall w :: w in words ==> IsValidWord(w) then
      Ok(Server(words, map[], map[], []))
    else
      assert exists i :: 0 <= i < |stopWords| && !IsValidWord(stopWords[i]) by {
        var w :| w in words && !IsValidWord(w);
        var i :| 0 <= i < |stopWords| && stopWords[i] == w;
      }
      Err(InvalidStopWord)
  }

  /** Construction from a line of text: its tokens are the stop words. */
  function NewServerFromText(text: string): (r: Result<Server>)
    ensures r.Ok? <==> AllValid(Words(text))
    ensures r.Ok? ==> forall w :: w in r.value.stopWords <==> w in Words(text)
  {
    NewServer(Words(text))
  }

  /** The tokens of `ws` that are not stop words, in order. */
  function WithoutStopWords(stopWords: set<string>, ws: seq<string>): (r: seq<string>) {
    if ws == [] then []
    else (if ws[0] in stopWords then [] else [ws[0]]) + WithoutStopWords(stopWords, ws[1..])
  }

  /** Validates the tokens one by one (failing at the first invalid one)
      and keeps the non-stop ones. */
  function NoStopFrom(s: Server, ws: seq<string>): (r: Result<seq<string>>)
    ensures r.Ok? <==> AllValid(ws)
    ensures r.Err? ==> r.error == InvalidDocumentWord
    ensures r.Ok? ==> r.value == WithoutStopWords(s.stopWords, ws)
  {
    if ws == [] then Ok([])
    else if !IsValidWord(ws[0]) then Err(InvalidDocumentWord)
    else
      match NoStopFrom(s, ws[1..])
      case Err(e) => Err(e)
      case Ok(rest) =>
        assert forall i :: 1 <= i < |ws| ==> ws[i] == ws[1..][i - 1];
        Ok((if IsStopWord(s, ws[0]) then [] else [ws[0]]) + rest)
  }

  /** The document's words without stop words; fails if any token of the
      text holds a control character. */
  function SplitIntoWordsNoStop(s: Server, text: string): (r: Result<seq<string>>)
    ensures r.Ok? <==> AllValid(Words(text))
    ensures r.Err? ==> r.error == InvalidDocumentWord
    ensures r.Ok? ==> r.value == WithoutStopWords(s.stopWords, Words(text))
  {
    NoStopFrom(s, Words(text))
  }

  /** Every word kept is a token of the text, valid, non-empty and not a
      stop word; every non-stop token is kept as often as it occurs. */
  lemma {:induction false} WithoutStopWordsKeeps(stopWords: set<string>, ws: seq<string>)
    ensures forall w :: w in WithoutStopWords(stopWords, ws) ==> w in ws && w !in stopWords
    ensures forall w :: w !in stopWords ==> Count(w, WithoutStopWords(stopWords, ws)) == Count(w, ws)
    decreases |ws|
  {
    if ws != [] {
      WithoutStopWordsKeeps(stopWords, ws[1..]);
      var rest := WithoutStopWords(stopWords, ws[1..]);
      var head: seq<string> := if ws[0] in stopWords then [] else [ws[0]];
      CountAppend(head, rest);
      forall w | w in head + rest ensures w in ws && w !in stopWords {
        if w in rest {
          assert w in ws[1..];
        }
      }
    }
  }

  /** Number of occurrences of `w` in `ws`. */
  function Count(w: string, ws: seq<string>): nat {
    if ws == [] then 0 else (if ws[0] == w then 1 else 0) + Count(w, ws[1..])
  }

  lemma {:induction false} CountAppend(a: seq<string>, b: seq<string>)
    ensures forall w :: Count(w, a + b) == Count(w, a) + Count(w, b)
    decreases |a|
  {
    if a == [] {
      assert a + b == b;
    } else {
      assert (a + b)[1..] == a[1..] + b;
      CountAppend(a[1..], b);
      forall w ensures Count(w, a + b) == Count(w, a) + Count(w, b) {
        assert (a + b)[0] == a[0];
      }
    }
  }

  lemma {:induction false} CountPositive(w: string, ws: seq<string>)
    ensures Count(w, ws) > 0 <==> w in ws
    decreases |ws|
  {
    if ws != [] {
      CountPositive(w, ws[1..]);
    }
  }

  function Sum(xs: seq<int>): int {
    if xs == [] then 0 else xs[0] + Sum(xs[1..])
  }

  function Abs(x: int): nat {
    if x < 0 then -x else x
  }

  /** Integer division truncating toward zero, as C++ `/` on `int`: the
      magnitude of the quotient is the floor of |a| / b and its sign is
      that of `a`. */
  function TruncDiv(a: int, b: int): (q: int)
    requires b > 0
    ensures Abs(q) * b <= Abs(a) < Abs(q) * b + b
    ensures a >= 0 ==> q >= 0
    ensures a <= 0 ==> q <= 0
  {
    var p := Abs(a) / b;
    DivBounds(Abs(a), b);
    if a >= 0 then p else -p
  }

  lemma DivBounds(a: nat, b: int)
    requires b > 0
    ensures (a / b) * b <= a < (a / b) * b + b
  {
  }

  /** The average of the ratings, truncated toward zero; 0 for none. */
  function ComputeAverageRating(ratings: seq<int>): (r: int)
    ensures ratings == [] ==> r == 0
    ensures ratings != [] ==> Abs(r) * |ratings| <= Abs(Sum(ratings)) < Abs(r) * |ratings| + |ratings|
    ensures Sum(ratings) >= 0 ==> r >= 0
    ensures Sum(ratings) <= 0 ==> r <= 0
  {
    if ratings == [] then 0 else TruncDiv(Sum(ratings), |ratings|)
  }

  /** Term frequency of `w` in document `id`; 0 when not indexed. */
  function Tf(index: Index, w: string, id: int): real {
    if w in index && id in index[w] then index[w][id] else 0.0
  }

  /** The source's indexing loop: for each word, in order, add `inv` to
      the entry of `id` in the word's posting list, creating the list and
      the entry (at 0) when missing. */
  function AddPostings(index: Index, id: int, ws: seq<string>, inv: real): (r: Index)
    ensures forall w :: w in r && id in r[w] <==> (w in index && id in index[w]) || w in ws
    decreases |ws|
  {
    if ws == [] then index
    else
      var w := ws[0];
      var posting := if w in index then index[w] else map[];
      var before := if id in posting then posting[id] else 0.0;
      AddPostings(index[w := posting[id := before + inv]], id, ws[1..], inv)
  }

  /** `x` added to itself `c` times (the source adds the frequency
      step once per occurrence). */
  function Times(c: nat, x: real): real {
    if c == 0 then 0.0 else x + Times(c - 1, x)
  }

  lemma {:induction false} TimesAdd(a: nat, b: nat, x: real)
    ensures Times(a + b, x) == Times(a, x) + Times(b, x)
    decreases a
  {
    if a > 0 {
      TimesAdd(a - 1, b, x);
    }
  }

  lemma {:induction false} TimesIsProduct(c: nat, x: real)
    ensures Times(c, x) == c as real * x
    decreases c
  {
    if c > 0 {
      TimesIsProduct(c - 1, x);
      ProductStep(c, x);
    }
  }

  lemma ProductStep(c: nat, x: real)
    requires c > 0
    ensures x + (c - 1) as real * x == c as real * x
  {
  }

  /** Each occurrence of a word adds `inv` to the document's frequency
      for it: the frequency grows by (occurrences) * `inv`. */
  lemma {:induction false} AddPostingsTf(index: Index, id: int, ws: seq<string>, inv: real)
    ensures forall w :: Tf(AddPostings(index, id, ws, inv), w, id) == Tf(index, w, id) + Times(Count(w, ws), inv)
    decreases |ws|
  {
    if ws != [] {
      var w0 := ws[0];
      var posting := if w0 in index then index[w0] else map[];
      var before := if id in posting then posting[id] else 0.0;
      var index' := index[w0 := posting[id := before + inv]];
      AddPostingsTf(index', id, ws[1..], inv);
      forall w ensures Tf(AddPostings(index, id, ws, inv), w, id) == Tf(index, w, id) + Times(Count(w, ws), inv) {
        TimesAdd(if w0 == w then 1 else 0, Count(w, ws[1..]), inv);
      }
    }
  }

  /** Indexing one document leaves every other document's postings as
      they were and creates posting lists only for its own words. */
  lemma AddPostingsFrame(index: Index, id: int, ws: seq<string>, inv: real)
    ensures var r := AddPostings(index, id, ws, inv);
      && (forall w :: w in r <==> w in index || w in ws)
      && (forall w, d :: d != id ==> (w in r && d in r[w] <==> w in index && d in index[w]))
      && (forall w, d :: d != id && w in index && d in index[w] ==> r[w][d] == index[w][d])
  {
    AddPostingsWords(index, id, ws, inv);
    AddPostingsOthers(index, id, ws, inv);
  }

  lemma {:induction false} AddPostingsWords(index: Index, id: int, ws: seq<string>, inv: real)
    ensures forall w :: w in AddPostings(index, id, ws, inv) <==> w in index || w in ws
    decreases |ws|
  {
    if ws != [] {
      var w := ws[0];
      var posting := if w in index then index[w] else map[];
      var before := if id in posting then posting[id] else 0.0;
      AddPostingsWords(index[w := posting[id := before + inv]], id, ws[1..], inv);
      assert forall v :: v in ws <==> v == w || v in ws[1..] by {
        assert ws == [w] + ws[1..];
      }
    }
  }

  lemma {:induction false} AddPostingsOthers(index: Index, id: int, ws: seq<string>, inv: real)
    ensures var r := AddPostings(index, id, ws, inv);
      && (forall w, d :: d != id ==> (w in r && d in r[w] <==> w in index && d in index[w]))
      && (forall w, d :: d != id && w in index && d in index[w] ==> r[w][d] == index[w][d])
    decreases |ws|
  {
    if ws != [] {
      var w0 := ws[0];
      var posting := if w0 in index then index[w0] else map[];
      var before := if id in posting then posting[id] else 0.0;
      var index' := index[w0 := posting[id := before + inv]];
      var r := AddPostings(index, id, ws, inv);
      assert r == AddPostings(index', id, ws[1..], inv);
      AddPostingsOthers(index', id, ws[1..], inv);
      forall w, d | d != id
        ensures w in r && d in r[w] <==> w in index && d in index[w]
      {
        assert w in index' && d in index'[w] <==> w in index && d in index[w];
      }
      forall w, d | d != id && w in index && d in index[w]
        ensures r[w][d] == index[w][d]
      {
        assert index'[w][d] == index[w][d];
      }
    }
  }

  /** Adds a document: fails for a negative or already stored id, or for
      a token with a control character, before anything changes;
      otherwise indexes the non-stop words with frequency 1/n each (n the
      number of non-stop words), stores the truncated average rating and
      the status, and appends the id to the insertion order. */
  function AddDocument(s: Server, id: int, document: string, status: DocumentStatus,
                       ratings: seq<int>): (r: Result<Server>)
    requires Valid(s)
    ensures id < 0 ==> r == Err(NegativeId)
    ensures id >= 0 && id in s.documents ==> r == Err(DuplicateId)
    ensures r.Ok? <==>
      && id >= 0 && id !in s.documents
      && AllValid(Words(document))
    ensures r.Err? && id >= 0 && id !in s.documents ==> r.error == InvalidDocumentWord
    ensures r.Ok? ==> Valid(r.value)
    ensures r.Ok? ==> r.value.stopWords == s.stopWords
    ensures r.Ok? ==> r.value.documentIds == s.documentIds + [id]
    ensures r.Ok? ==> r.value.documents == s.documents[id := DocumentData(ComputeAverageRating(ratings), status)]
    ensures r.Ok? ==> var words := SplitIntoWordsNoStop(s, document).value;
      r.value.index == AddPostings(s.index, id, words, FrequencyStep(|words|))
  {
    if id < 0 then Err(NegativeId)
    else if id in s.documents then Err(DuplicateId)
    else
      match SplitIntoWordsNoStop(s, document)
      case Err(e) => Err(e)
      case Ok(words) =>
        var data := DocumentData(ComputeAverageRating(ratings), status);
        var s' := Server(
          s.stopWords,
          AddPostings(s.index, id, words, FrequencyStep(|words|)),
          s.documents[id := data],
          s.documentIds + [id]);
        AddKeepsValid(s, id, Words(document), words, FrequencyStep(|words|), data);
        Ok(s')
  }

  /** The amount the source adds per occurrence: 1/n for n words. With
      no words the source's quotient 1.0/0 is never used. */
  function FrequencyStep(n: nat): (r: real)
    ensures n > 0 ==> r * (n as real) == 1.0 && r > 0.0
    ensures n == 0 ==> r == 0.0
  {
    if n == 0 then 0.0 else 1.0 / (n as real)
  }

  lemma AddKeepsValid(s: Server, id: int, tokens: seq<string>, words: seq<string>, inv: real,
                      data: DocumentData)
    requires Valid(s)
    requires id >= 0 && id !in s.documents
    requires AllValid(tokens)
    requires forall i :: 0 <= i < |tokens| ==> IsWord(tokens[i])
    requires words == WithoutStopWords(s.stopWords, tokens)
    ensures Valid(Server(s.stopWords, AddPostings(s.index, id, words, inv),
                         s.documents[id := data], s.documentIds + [id]))
  {
    var s' := Server(s.stopWords, AddPostings(s.index, id, words, inv),
                     s.documents[id := data], s.documentIds + [id]);
    assert ValidStore(s');
    WithoutStopWordsKeeps(s.stopWords, tokens);
    AddPostingsFrame(s.index, id, words, inv);
    forall w | w in s'.index ensures ValidPosting(s', w) {
      if w in words {
        assert id in s'.index[w].Keys;
        var i :| 0 <= i < |tokens| && tokens[i] == w;
      } else {
        assert w in s.index && ValidPosting(s, w);
        OldPostingStays(s, s', id, w);
      }
    }
  }

  lemma OldPostingStays(s: Server, s': Server, id: int, w: string)
    requires w in s.index && ValidPosting(s, w)
    requires s'.stopWords == s.stopWords
    requires s.documents.Keys <= s'.documents.Keys
    requires w in s'.index
    requires forall d :: d != id ==> (d in s'.index[w] <==> d in s.index[w])
    requires id !in s.documents && id in s'.documents
    ensures ValidPosting(s', w)
  {
    assert s.index[w].Keys <= s'.index[w].Keys by {
      forall d | d in s.index[w] ensures d in s'.index[w] {
        assert d in s.documents;
      }
    }
  }

  function GetDocumentCount(s: Server): (r: int)
    requires Valid(s)
    ensures r == |s.documentIds|
  {
    DistinctCard(s.documentIds, s.documents.Keys);
    |s.documents|
  }

  /** The id added at insertion position `index`; any other position,
      negative ones included, is out of range. */
  function GetDocumentId(s: Server, index: int): (r: Result<int>)
    requires Valid(s)
    ensures r.Ok? <==> 0 <= index < GetDocumentCount(s)
    ensures r.Err? ==> r.error == IndexOutOfRange
    ensures r.Ok? ==> r.value == s.documentIds[index] && r.value in s.documents
  {
    if 0 <= index < |s.documentIds| then Ok(s.documentIds[index]) else Err(IndexOutOfRange)
  }

  /** A list of distinct ids has as many elements as the set it covers. */
  lemma {:induction false} DistinctCard(xs: seq<int>, keys: set<int>)
    requires Distinct(xs)
    requires forall i :: 0 <= i < |xs| ==> xs[i] in keys
    requires forall k :: k in keys ==> k in xs
    ensures |keys| == |xs|
    decreases |xs|
  {
    if xs != [] {
      var last := xs[|xs| - 1];
      var init := xs[..|xs| - 1];
      assert last in keys;
      assert |keys - {last}| == |keys| - 1;
      assert forall i :: 0 <= i < |init| ==> init[i] in keys - {last};
      assert forall k :: k in keys - {last} ==> k in init by {
        forall k | k in keys - {last} ensures k in init {
          var i :| 0 <= i < |xs| && xs[i] == k;
          assert i != |xs| - 1;
          assert init[i] == k;
        }
      }
      assert forall i :: 0 <= i < |init| ==> init[i] != last;
      DistinctCard(init, keys - {last});
    } else {
      assert forall k :: k !in keys;
      assert keys == {};
    }
  }

  /** After a successful add the count grows by one, earlier positions are
      unchanged and the new id sits at the old count. */
  lemma GetDocumentIdAfterAdd(s: Server, id: int, document: string, status: DocumentStatus,
                              ratings: seq<int>, i: int)
    requires Valid(s)
    requires AddDocument(s, id, document, status, ratings).Ok?
    ensures var s' := AddDocument(s, id, document, status, ratings).value;
      && GetDocumentCount(s') == GetDocumentCount(s) + 1
      && GetDocumentId(s', GetDocumentCount(s)) == Ok(id)
      && (0 <= i < GetDocumentCount(s) ==> GetDocumentId(s', i) == GetDocumentId(s, i))
  {
  }

  /** The frequencies a successful add stores: `id` is posted exactly
      under the document's non-stop words, each with frequency
      (occurrences) / (number of non-stop words); the postings of every
      other document are untouched. */
  lemma AddDocumentTermFrequencies(s: Server, id: int, document: string, status: DocumentStatus,
                                   ratings: seq<int>)
    requires Valid(s)
    requires AddDocument(s, id, document, status, ratings).Ok?
    ensures var ix := AddDocument(s, id, document, status, ratings).value.index;
      var ws := SplitIntoWordsNoStop(s, document).value;
      && (forall w :: w in ix && id in ix[w] <==> w in ws)
      && (forall w :: w in ws ==> ix[w][id] == Count(w, ws) as real / |ws| as real)
      && (forall w, d :: d != id ==> (w in ix && d in ix[w] <==> w in s.index && d in s.index[w]))
      && (forall w, d :: d != id && w in s.index && d in s.index[w] ==> ix[w][d] == s.index[w][d])
  {
    var ws := SplitIntoWordsNoStop(s, document).value;
    assert forall w :: !(w in s.index && id in s.index[w]) by {
      forall w | w in s.index ensures id !in s.index[w] {
        assert ValidPosting(s, w);
      }
    }
    IndexDocumentFrequencies(s.index, id, ws);
  }

  /** Indexing the words `ws` of a fresh document `id`. */
  lemma IndexDocumentFrequencies(index: Index, id: int, ws: seq<string>)
    requires forall w :: !(w in index && id in index[w])
    ensures var ix := AddPostings(index, id, ws, FrequencyStep(|ws|));
      && (forall w :: w in ix && id in ix[w] <==> w in ws)
      && (forall w :: w in ws ==> ix[w][id] == Count(w, ws) as real / |ws| as real)
      && (forall w, d :: d != id ==> (w in ix && d in ix[w] <==> w in index && d in index[w]))
      && (forall w, d :: d != id && w in index && d in index[w] ==> ix[w][d] == index[w][d])
  {
    var inv := FrequencyStep(|ws|);
    var ix := AddPostings(index, id, ws, inv);
    AddPostingsTf(index, id, ws, inv);
    AddPostingsFrame(index, id, ws, inv);
    forall w | w in ws ensures ix[w][id] == Count(w, ws) as real / |ws| as real {
      assert Tf(index, w, id) == 0.0;
      assert Tf(ix, w, id) == ix[w][id];
      TimesStep(Count(w, ws), |ws|);
    }
  }

  /** Adding 1/n, c times, gives c/n. */
  lemma TimesStep(c: nat, n: nat)
    requires n > 0
    ensures Times(c, FrequencyStep(n)) == c as real / n as real
  {
    TimesIsProduct(c, FrequencyStep(n));
    MulInverse(c, n);
  }

  /** Sum of the frequencies of document `id` over the words `us`. */
  function SumTf(index: Index, id: int, us: seq<string>): real {
    if us == [] then 0.0 else Tf(index, us[0], id) + SumTf(index, id, us[1..])
  }

  /** Sum over the words `us` of their occurrence counts in `ws`. */
  function SumCounts(us: seq<string>, ws: seq<string>): nat {
    if us == [] then 0 else Count(us[0], ws) + SumCounts(us[1..], ws)
  }

  lemma {:induction false} SumCountsOfCons(us: seq<string>, x: string, ws: seq<string>)
    ensures SumCounts(us, [x] + ws) == Count(x, us) + SumCounts(us, ws)
    decreases |us|
  {
    if us != [] {
      assert ([x] + ws)[1..] == ws;
      SumCountsOfCons(us[1..], x, ws);
    }
  }

  lemma {:induction false} SumCountsOfEmpty(us: seq<string>)
    ensures SumCounts(us, []) == 0
    decreases |us|
  {
    if us != [] {
      SumCountsOfEmpty(us[1..]);
    }
  }

  lemma {:induction false} CountInIncreasing(x: string, us: seq<string>)
    requires OrderedSets.StrictlyIncreasing(us, KeyOrders.Less)
    requires x in us
    ensures Count(x, us) == 1
    decreases |us|
  {
    KeyOrders.LessIsStrictTotalOrder();
    OrderedSets.HeadIsLeast(us, KeyOrders.Less);
    if us[0] == x {
      KeyOrders.LessIrreflexive(x);
      CountPositive(x, us[1..]);
    } else {
      CountInIncreasing(x, us[1..]);
    }
  }

  /** Counting every distinct word of `ws` once and summing the counts
      gives the length of `ws`. */
  lemma {:induction false} SumCountsIsLength(us: seq<string>, ws: seq<string>)
    requires OrderedSets.StrictlyIncreasing(us, KeyOrders.Less)
    requires forall w :: w in ws ==> w in us
    ensures SumCounts(us, ws) == |ws|
    decreases |ws|
  {
    if ws == [] {
      SumCountsOfEmpty(us);
    } else {
      assert ws == [ws[0]] + ws[1..];
      SumCountsOfCons(us, ws[0], ws[1..]);
      CountInIncreasing(ws[0], us);
      SumCountsIsLength(us, ws[1..]);
    }
  }

  lemma {:induction false} SumTfScales(index: Index, id: int, us: seq<string>, ws: seq<string>, inv: real)
    requires forall w :: Tf(index, w, id) == Times(Count(w, ws), inv)
    ensures SumTf(index, id, us) == Times(SumCounts(us, ws), inv)
    decreases |us|
  {
    if us != [] {
      SumTfScales(index, id, us[1..], ws, inv);
      TimesAdd(Count(us[0], ws), SumCounts(us[1..], ws), inv);
    }
  }

  /** The distinct non-stop words of a document, in increasing order. */
  function DistinctWords(ws: seq<string>): (r: seq<string>)
    ensures OrderedSets.StrictlyIncreasing(r, KeyOrders.Less)
    ensures OrderedSets.Elems(r) == OrderedSets.Elems(ws)
  {
    KeyOrders.LessIsStrictTotalOrder();
    OrderedSets.FromSeq([], ws, KeyOrders.Less)
  }

  /** When a document has at least one non-stop word, its frequencies,
      summed over its distinct words, are exactly 1. */
  lemma TermFrequenciesSumToOne(s: Server, id: int, document: string, status: DocumentStatus,
                                ratings: seq<int>)
    requires Valid(s)
    requires AddDocument(s, id, document, status, ratings).Ok?
    requires |SplitIntoWordsNoStop(s, document).value| > 0
    ensures var ix := AddDocument(s, id, document, status, ratings).value.index;
      var ws := SplitIntoWordsNoStop(s, document).value;
      SumTf(ix, id, DistinctWords(ws)) == 1.0
  {
    var ws := SplitIntoWordsNoStop(s, document).value;
    assert forall w :: !(w in s.index && id in s.index[w]) by {
      forall w | w in s.index ensures id !in s.index[w] {
        assert ValidPosting(s, w);
      }
    }
    FrequenciesSumToOne(s.index, id, ws);
  }

  lemma FrequenciesSumToOne(index: Index, id: int, ws: seq<string>)
    requires forall w :: !(w in index && id in index[w])
    requires |ws| > 0
    ensures SumTf(AddPostings(index, id, ws, FrequencyStep(|ws|)), id, DistinctWords(ws)) == 1.0
  {
    var inv := FrequencyStep(|ws|);
    var ix := AddPostings(index, id, ws, inv);
    var us := DistinctWords(ws);
    AddPostingsTf(index, id, ws, inv);
    assert forall w :: Tf(ix, w, id) == Times(Count(w, ws), inv) by {
      forall w ensures Tf(ix, w, id) == Times(Count(w, ws), inv) {
        assert Tf(index, w, id) == 0.0;
      }
    }
    SumTfScales(ix, id, us, ws, inv);
    assert forall w :: w in ws ==> w in us by {
      forall w | w in ws ensures w in us {
        assert w in OrderedSets.Elems(ws);
      }
    }
    SumCountsIsLength(us, ws);
    TimesStepWhole(|ws|);
  }

  /** Adding 1/n, n times, gives 1. */
  lemma TimesStepWhole(n: nat)
    requires n > 0
    ensures Times(n, FrequencyStep(n)) == 1.0
  {
    TimesStep(n, n);
    DivSelf(n);
  }

  lemma DivSelf(n: nat)
    requires n > 0
    ensures n as real / n as real == 1.0
  {
  }

  lemma MulInverse(c: int, n: nat)
    requires n > 0
    ensures c as real * (1.0 / n as real) == c as real / n as real
  {
  }
}
