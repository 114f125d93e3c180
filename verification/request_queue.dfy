/**
 A sliding window over the most recent search requests.

 The queue remembers the last `MinInDay` requests (one per minute of a
 day), evicting the oldest first, and counts how many of the remembered
 requests found no document. The server it searches is passed to each
 request instead of being held by reference.
 */
module RequestQueues {
  import opened SearchServer
  import opened Ranking

  /** The window length: minutes in a day. */
  const MinInDay: nat := 1440

  /** `current_time_` is a 64-bit unsigned counter. */
  const TimeModulus: nat := 0x1_0000_0000_0000_0000

  datatype QueryResult = QueryResult(matchedDocuments: seq<Document>, request: string)

  datatype RequestQueue = RequestQueue(
    requests: seq<QueryResult>,
    noResultRequests: int,
    currentTime: nat)

  /** The number of remembered requests that found nothing. */
  function CountEmpty(rs: seq<QueryResult>): (n: nat)
    ensures n <= |rs|
  {
    if rs == [] then 0
    else (if rs[0].matchedDocuments == [] then 1 else 0) + CountEmpty(rs[1..])
  }

  /** The last `MinInDay` entries of a history (all of it when shorter). */
  function Window(h: seq<QueryResult>): (w: seq<QueryResult>)
    ensures |w| <= MinInDay
    ensures |w| == if |h| < MinInDay then |h| else MinInDay
  {
    if |h| <= MinInDay then h else h[|h| - MinInDay..]
  }

  /** The window holds at most a day of requests, the counter agrees with
      it, and the clock fits in 64 bits. */
  predicate Valid(q: RequestQueue) {
    && |q.requests| <= MinInDay
    && q.noResultRequests == CountEmpty(q.requests)
    && q.currentTime < TimeModulus
  }

  /** A fresh queue: no requests, nothing counted, clock at zero. */
  function NewRequestQueue(): (q: RequestQueue)
    ensures Valid(q)
    ensures q.requests == [] && q.noResultRequests == 0 && q.currentTime == 0
  {
    RequestQueue([], 0, 0)
  }

  /** Remembers one completed request: when the window is full the oldest
      entry is dropped (and uncounted if it found nothing) before the new
      one is appended (and counted if it found nothing). */
  function Record(q: RequestQueue, result: QueryResult): (r: RequestQueue)
    requires Valid(q)
    ensures Valid(r)
    ensures r.requests == Window(q.requests + [result])
    ensures r.noResultRequests == CountEmpty(Window(q.requests + [result]))
    ensures r.currentTime == q.currentTime
  {
    var requests := if |q.requests| == MinInDay then q.requests[1..] else q.requests;
    var count :=
      if |q.requests| == MinInDay && q.requests[0].matchedDocuments == [] then q.noResultRequests - 1
      else q.noResultRequests;
    CountEmptyAppend(requests, [result]);
    RecordIsWindow(q.requests, result);
    RequestQueue(requests + [result], count + (if result.matchedDocuments == [] then 1 else 0), q.currentTime)
  }

  lemma RecordIsWindow(h: seq<QueryResult>, x: QueryResult)
    requires |h| <= MinInDay
    ensures Window(h + [x]) == (if |h| == MinInDay then h[1..] else h) + [x]
  {
    if |h| == MinInDay {
      assert (h + [x])[|h + [x]| - MinInDay..] == h[1..] + [x];
    }
  }

  lemma {:induction false} CountEmptyAppend(a: seq<QueryResult>, b: seq<QueryResult>)
    ensures CountEmpty(a + b) == CountEmpty(a) + CountEmpty(b)
    decreases |a|
  {
    if a == [] {
      assert a + b == b;
    } else {
      assert (a + b)[1..] == a[1..] + b;
      CountEmptyAppend(a[1..], b);
    }
  }

  /** A search through the queue. The clock advances (modulo 2^64) before
      the search runs, so a query that fails to parse still advances it
      but leaves the window and the counter as they were. A search that
      succeeds is remembered and its result returned unchanged. */
  function AddFindRequest(q: RequestQueue, s: Server, rawQuery: string, pred: DocumentPredicate,
                          ln: real -> real): (r: (RequestQueue, Result<seq<Document>>))
    requires Valid(q) && SearchServer.Valid(s)
    ensures Valid(r.0)
    ensures r.1 == FindTopDocuments(s, rawQuery, pred, ln)
    ensures r.0.currentTime == (q.currentTime + 1) % TimeModulus
    ensures r.1.Err? ==> r.0.requests == q.requests && r.0.noResultRequests == q.noResultRequests
    ensures r.1.Ok? ==> r.0.requests == Window(q.requests + [QueryResult(r.1.value, rawQuery)])
  {
    var q' := q.(currentTime := (q.currentTime + 1) % TimeModulus);
    match FindTopDocuments(s, rawQuery, pred, ln)
    case Err(e) => (q', Err(e))
    case Ok(documents) => (Record(q', QueryResult(documents, rawQuery)), Ok(documents))
  }

  /** The number of remembered requests that found nothing; it never
      exceeds the number remembered. */
  function GetNoResultRequests(q: RequestQueue): (n: int)
    requires Valid(q)
    ensures n == CountEmpty(q.requests)
    ensures 0 <= n <= |q.requests| <= MinInDay
  {
    q.noResultRequests
  }

  /** Remembers a sequence of completed requests, oldest first. */
  function RecordAll(q: RequestQueue, results: seq<QueryResult>): (r: RequestQueue)
    requires Valid(q)
    ensures Valid(r)
    decreases |results|
  {
    if results == [] then q else RecordAll(Record(q, results[0]), results[1..])
  }

  /** Windowing twice is windowing once: keeping the last day of the last
      day plus one entry is keeping the last day of everything plus that
      entry. */
  lemma WindowOfWindow(h: seq<QueryResult>, x: QueryResult)
    ensures Window(Window(h) + [x]) == Window(h + [x])
  {
    if |h| > MinInDay {
      var w := Window(h);
      assert (w + [x])[|w + [x]| - MinInDay..] == (h + [x])[|h + [x]| - MinInDay..];
    }
  }

  /** Starting from any window, remembering a history leaves exactly the
      last day of (the old window followed by the history), and the
      counter counts its empty results. */
  lemma RecordAllIsWindow(q: RequestQueue, results: seq<QueryResult>)
    requires Valid(q)
    ensures RecordAll(q, results).requests == Window(q.requests + results)
    ensures GetNoResultRequests(RecordAll(q, results)) == CountEmpty(Window(q.requests + results))
  {
    RecordAllRequests(q, results);
  }

  lemma {:induction false} RecordAllRequests(q: RequestQueue, results: seq<QueryResult>)
    requires Valid(q)
    ensures RecordAll(q, results).requests == Window(q.requests + results)
    decreases |results|
  {
    if results == [] {
      assert q.requests + results == q.requests;
    } else {
      var x, rest := results[0], results[1..];
      var h := q.requests + [x];
      var q' := Record(q, x);
      assert q'.requests == Window(h);
      RecordAllRequests(q', rest);
      WindowOfWindowAll(h, rest);
      assert results == [x] + rest;
      AppendAssoc(q.requests, [x], rest);
      assert RecordAll(q, results) == RecordAll(q', rest);
    }
  }

  lemma AppendAssoc(a: seq<QueryResult>, b: seq<QueryResult>, c: seq<QueryResult>)
    ensures (a + b) + c == a + (b + c)
  {
  }

  /** Generalises `WindowOfWindow` to a whole suffix. */
  lemma {:induction false} WindowOfWindowAll(h: seq<QueryResult>, xs: seq<QueryResult>)
    ensures Window(Window(h) + xs) == Window(h + xs)
    decreases |xs|
  {
    if xs == [] {
      assert Window(h) + xs == Window(h);
      assert h + xs == h;
      if |h| > MinInDay {
        assert Window(h)[|Window(h)| - MinInDay..] == Window(h);
      }
    } else {
      WindowOfWindow(h, xs[0]);
      WindowOfWindowAll(h + [xs[0]], xs[1..]);
      WindowOfWindowAll(Window(h) + [xs[0]], xs[1..]);
      assert Window(h) + xs == Window(h) + [xs[0]] + xs[1..];
      assert h + xs == h + [xs[0]] + xs[1..];
    }
  }
}
