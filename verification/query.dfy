/**
 Query parsing: a raw query is tokenized; each token is validated, a
 single leading '-' marks it as a minus (excluded) word, and words that
 are stop words are dropped. Plus and minus words are collected into two
 ordered sets that are never reconciled with each other.
 */
module QueryParser {
  import opened Tokenizer
  import opened SearchServer
  import OrderedSets
  import KeyOrders

  datatype QueryWord = QueryWord(data: string, isMinus: bool, isStop: bool)

  /** Both fields are ordered sets of words (`std::set<std::string>`). */
  datatype Query = Query(plus: seq<string>, minus: seq<string>)

  predicate Ordered(ws: seq<string>) {
    OrderedSets.StrictlyIncreasing(ws, KeyOrders.Less)
  }

  /** A token the parser rejects: a lone "-", a token holding a control
      character, or one starting with "--". The source never reads
      `text[1]` of a one-character token: "-" is caught by the first test
      and any other single character fails `text[0] == '-'`, so the guard
      `|text| >= 2` changes nothing. */
  predicate IsMalformed(text: string) {
    || text == "-"
    || !IsValidWord(text)
    || (|text| >= 2 && text[0] == '-' && text[1] == '-')
  }

  /** No token of `ts` is malformed, so the whole query parses. */
  predicate NoneMalformed(ts: seq<string>) {
    forall i :: 0 <= i < |ts| ==> !IsMalformed(ts[i])
  }

  /** Classifies one token. An accepted token is the parsed word, preceded
      by '-' exactly when it is a minus word. */
  function ParseQueryWord(s: Server, text: string): (r: Result<QueryWord>)
    ensures r.Err? <==> IsMalformed(text)
    ensures r.Err? ==> r.error == InvalidQuery
    ensures r.Ok? ==> (r.value.isMinus <==> text != [] && text[0] == '-')
    ensures r.Ok? ==> (if r.value.isMinus then "-" + r.value.data else r.value.data) == text
    ensures r.Ok? ==> (r.value.isStop <==> r.value.data in s.stopWords)
    ensures r.Ok? ==> IsValidWord(r.value.data)
    ensures r.Ok? && text != [] ==> r.value.data != [] && r.value.data[0] != '-'
  {
    if IsMalformed(text) then Err(InvalidQuery)
    else if text != [] && text[0] == '-' then
      Ok(QueryWord(text[1..], true, IsStopWord(s, text[1..])))
    else
      Ok(QueryWord(text, false, IsStopWord(s, text)))
  }

  /** Reference definition of the plus words of a token list: tokens not
      starting with '-' that are not stop words. */
  ghost function PlusTerms(s: Server, ts: seq<string>): set<string> {
    set t | t in ts && (t == [] || t[0] != '-') && t !in s.stopWords
  }

  /** Reference definition of the minus words: tokens starting with '-',
      with the marker removed, that are not stop words. */
  ghost function MinusTerms(s: Server, ts: seq<string>): set<string> {
    set t | t in ts && t != [] && t[0] == '-' && t[1..] !in s.stopWords :: t[1..]
  }

  /** Records one parsed word: stop words are dropped, the others go into
      the minus or plus set. */
  function AddWord(q: Query, w: QueryWord): (r: Query)
    requires Ordered(q.plus) && Ordered(q.minus)
    ensures Ordered(r.plus) && Ordered(r.minus)
    ensures OrderedSets.Elems(r.plus) ==
      OrderedSets.Elems(q.plus) + (if !w.isStop && !w.isMinus then {w.data} else {})
    ensures OrderedSets.Elems(r.minus) ==
      OrderedSets.Elems(q.minus) + (if !w.isStop && w.isMinus then {w.data} else {})
  {
    KeyOrders.LessIsStrictTotalOrder();
    if w.isStop then q
    else if w.isMinus then Query(q.plus, OrderedSets.Insert(q.minus, w.data, KeyOrders.Less))
    else Query(OrderedSets.Insert(q.plus, w.data, KeyOrders.Less), q.minus)
  }

  /** The parsing loop over the tokens; the first malformed token fails
      the whole query. */
  function ParseTokens(s: Server, ts: seq<string>, q: Query): (r: Result<Query>)
    requires Ordered(q.plus) && Ordered(q.minus)
    ensures r.Ok? <==> NoneMalformed(ts)
    ensures r.Err? ==> r.error == InvalidQuery
    ensures r.Ok? ==> Ordered(r.value.plus) && Ordered(r.value.minus)
    ensures r.Ok? ==> OrderedSets.Elems(r.value.plus) == OrderedSets.Elems(q.plus) + PlusTerms(s, ts)
    ensures r.Ok? ==> OrderedSets.Elems(r.value.minus) == OrderedSets.Elems(q.minus) + MinusTerms(s, ts)
    decreases |ts|
  {
    if ts == [] then Ok(q)
    else
      match ParseQueryWord(s, ts[0])
      case Err(e) => Err(e)
      case Ok(w) =>
        var q' := AddWord(q, w);
        var r := ParseTokens(s, ts[1..], q');
        ParseStep(s, ts, q, w, q', r);
        r
  }

  /** One token of the parsing loop: what the rest of the tokens yields
      after recording the first is what the whole list yields. */
  lemma ParseStep(s: Server, ts: seq<string>, q: Query, w: QueryWord, q': Query, r: Result<Query>)
    requires ts != [] && ParseQueryWord(s, ts[0]) == Ok(w)
    requires Ordered(q.plus) && Ordered(q.minus)
    requires q' == AddWord(q, w)
    requires r.Ok? <==> NoneMalformed(ts[1..])
    requires r.Ok? ==> OrderedSets.Elems(r.value.plus) == OrderedSets.Elems(q'.plus) + PlusTerms(s, ts[1..])
    requires r.Ok? ==> OrderedSets.Elems(r.value.minus) == OrderedSets.Elems(q'.minus) + MinusTerms(s, ts[1..])
    ensures r.Ok? <==> NoneMalformed(ts)
    ensures r.Ok? ==> OrderedSets.Elems(r.value.plus) == OrderedSets.Elems(q.plus) + PlusTerms(s, ts)
    ensures r.Ok? ==> OrderedSets.Elems(r.value.minus) == OrderedSets.Elems(q.minus) + MinusTerms(s, ts)
  {
    TermsOfCons(s, ts);
    WordTerms(s, ts[0], w);
    NoneMalformedCons(ts);
  }

  lemma NoneMalformedCons(ts: seq<string>)
    requires ts != []
    ensures NoneMalformed(ts) <==> !IsMalformed(ts[0]) && NoneMalformed(ts[1..])
  {
    assert forall i :: 1 <= i < |ts| ==> ts[i] == ts[1..][i - 1];
  }

  /** What one accepted token contributes to the reference sets. */
  lemma WordTerms(s: Server, t: string, w: QueryWord)
    requires ParseQueryWord(s, t) == Ok(w)
    ensures (if !w.isStop && !w.isMinus then {w.data} else {}) ==
      (if (t == [] || t[0] != '-') && t !in s.stopWords then {t} else {})
    ensures (if !w.isStop && w.isMinus then {w.data} else {}) ==
      (if t != [] && t[0] == '-' && t[1..] !in s.stopWords then {t[1..]} else {})
  {
    if w.isMinus {
      assert t == "-" + w.data;
      assert t[1..] == w.data;
    }
  }

  lemma TermsOfCons(s: Server, ts: seq<string>)
    requires ts != []
    ensures PlusTerms(s, ts) ==
      PlusTerms(s, ts[1..]) + (if (ts[0] == [] || ts[0][0] != '-') && ts[0] !in s.stopWords then {ts[0]} else {})
    ensures MinusTerms(s, ts) ==
      MinusTerms(s, ts[1..]) + (if ts[0] != [] && ts[0][0] == '-' && ts[0][1..] !in s.stopWords then {ts[0][1..]} else {})
  {
    assert forall t :: t in ts <==> t == ts[0] || t in ts[1..] by {
      assert ts == [ts[0]] + ts[1..];
    }
  }

  /** Every word of a parsed query is valid, non-empty, does not start
      with '-' and is not a stop word; both sets are ordered. */
  predicate WellFormed(s: Server, q: Query) {
    && Ordered(q.plus) && Ordered(q.minus)
    && (forall i :: 0 <= i < |q.plus| ==> ParsedWord(s, q.plus[i]))
    && (forall i :: 0 <= i < |q.minus| ==> ParsedWord(s, q.minus[i]))
  }

  predicate ParsedWord(s: Server, w: string) {
    w != [] && w[0] != '-' && IsValidWord(w) && w !in s.stopWords
  }

  /** Parses a raw query. It fails exactly when some token is malformed;
      otherwise the plus set holds the non-stop tokens without a leading
      '-', the minus set the non-stop tokens with one, marker removed. */
  function ParseQuery(s: Server, text: string): (r: Result<Query>)
    ensures r.Ok? <==> NoneMalformed(Words(text))
    ensures r.Err? ==> r.error == InvalidQuery
    ensures r.Ok? ==> WellFormed(s, r.value)
    ensures r.Ok? ==> OrderedSets.Elems(r.value.plus) == PlusTerms(s, Words(text))
    ensures r.Ok? ==> OrderedSets.Elems(r.value.minus) == MinusTerms(s, Words(text))
  {
    var ts := Words(text);
    var r := ParseTokens(s, ts, Query([], []));
    if r.Ok? then
      ParsedWordsWellFormed(s, ts, r.value);
      r
    else r
  }

  lemma ParsedWordsWellFormed(s: Server, ts: seq<string>, q: Query)
    requires forall i :: 0 <= i < |ts| ==> IsWord(ts[i]) && !IsMalformed(ts[i])
    requires Ordered(q.plus) && Ordered(q.minus)
    requires OrderedSets.Elems(q.plus) == PlusTerms(s, ts)
    requires OrderedSets.Elems(q.minus) == MinusTerms(s, ts)
    ensures WellFormed(s, q)
  {
    forall i | 0 <= i < |q.plus| ensures ParsedWord(s, q.plus[i]) {
      assert q.plus[i] in OrderedSets.Elems(q.plus);
    }
    forall i | 0 <= i < |q.minus| ensures ParsedWord(s, q.minus[i]) {
      assert q.minus[i] in OrderedSets.Elems(q.minus);
      var t :| t in ts && t != [] && t[0] == '-' && t[1..] !in s.stopWords && t[1..] == q.minus[i];
      assert |t| >= 2;
      assert forall k :: 0 <= k < |t[1..]| ==> t[1..][k] == t[k + 1];
    }
  }

  /** The same word can be both a plus and a minus word: the two sets
      are not reconciled (the minus word wins later, at search time). */
  lemma PlusAndMinusNotReconciled(s: Server, w: string)
    requires ParsedWord(s, w) && ' ' !in w
    ensures ParseQuery(s, w + " -" + w) == Ok(Query([w], [w]))
  {
    var ts := Words(w + " -" + w);
    TwoTokens(w);
    assert ts == [w, "-" + w];
    var r := ParseQuery(s, w + " -" + w);
    assert !IsMalformed(ts[0]) && !IsMalformed(ts[1]) by {
      assert ("-" + w)[1..] == w;
      assert forall i :: 1 <= i < |ts[1]| ==> ts[1][i] == w[i - 1];
    }
    assert r.Ok?;
    ReferenceTermsOfPair(s, w);
    SingletonQuery(r.value.plus, w);
    SingletonQuery(r.value.minus, w);
  }

  lemma TwoTokens(w: string)
    requires IsWord(w)
    ensures Words(w + " -" + w) == [w, "-" + w]
  {
    assert w + " -" + w == w + " " + ("-" + w);
    WordsOfSplit(w, "-" + w);
    WordsOfWord(w);
    WordsOfWord("-" + w);
  }

  lemma ReferenceTermsOfPair(s: Server, w: string)
    requires ParsedWord(s, w)
    ensures PlusTerms(s, [w, "-" + w]) == {w}
    ensures MinusTerms(s, [w, "-" + w]) == {w}
  {
    assert ("-" + w)[1..] == w;
  }

  lemma SingletonQuery(xs: seq<string>, w: string)
    requires Ordered(xs) && OrderedSets.Elems(xs) == {w}
    ensures xs == [w]
  {
    KeyOrders.LessIsStrictTotalOrder();
    assert OrderedSets.Elems([w]) == {w};
    OrderedSets.IncreasingUnique(xs, [w], KeyOrders.Less);
  }
}
