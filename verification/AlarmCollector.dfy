/** Collecting alarm pages from a server that may answer anything.

    `respond(k)` is the answer to the k-th request (for page k), none when the client
    raises; an answer may depend on everything before it, so any sequence of answers is
    possible.  Two answers have the same fingerprint exactly when they are equal
    (canonical JSON is assumed injective). */
module AlarmCollector {
  import opened Common

  const MAX_PAGES := 1000

  datatype Alarm = Alarm(json: string)

  /** The `data` object of an answer: each field is none when it is missing or has the
      wrong type; `totalPage` is the one inside `groupResult`. */
  datatype Data = NoData
                | Data(hits: Option<seq<Alarm>>, totalCount: Option<int>, totalPage: Option<int>,
                       offset: Option<int>, limit: Option<int>)

  datatype Payload = NotAnObject(text: string) | Object(data: Data, rest: string)

  datatype Page = Page(number: nat, payload: Payload)

  datatype Error = ClientFailed | RepeatedPage | TooManyPages

  type Server = nat -> Option<Payload>

  function Hits(payload: Payload): seq<Alarm> {
    if payload.Object? && payload.data.Data? && payload.data.hits.Some? then payload.data.hits.value else []
  }

  /** Whether the collected total already reaches what an offset and limit promise. */
  predicate WindowReachesTotal(d: Data, hits: nat)
    requires d.Data?
  {
    && d.totalCount.Some? && d.offset.Some? && d.limit.Some? && d.offset.value >= 0
    && d.offset.value + (if d.limit.value > hits then d.limit.value else hits) >= d.totalCount.value
  }

  predicate IsLastPage(pageSize: int, payload: Payload, pageNumber: nat, hits: nat, collected: nat) {
    if payload.NotAnObject? || payload.data.NoData? || hits == 0 then true
    else
      var d := payload.data;
      if d.totalCount.Some? && collected >= d.totalCount.value then true
      else if d.totalPage.Some? && pageNumber >= d.totalPage.value then true
      else if WindowReachesTotal(d, hits) then true
      else hits < pageSize
  }

  /** The stop test: nothing to read, or the total number of alarms or of pages is reached,
      or the page's offset with its limit or with its hits reaches the total, or the page
      is not full. */
  lemma LastPageExactly(pageSize: int, payload: Payload, pageNumber: nat, collected: nat)
    ensures IsLastPage(pageSize, payload, pageNumber, |Hits(payload)|, collected) <==>
              || Hits(payload) == [] || |Hits(payload)| < pageSize
              || (exists total :: payload.data.totalCount == Some(total) && total <= collected)
              || (exists pages :: payload.data.totalPage == Some(pages) && pages <= pageNumber)
              || (exists total, offset, limit ::
                    && payload.data.totalCount == Some(total) && payload.data.offset == Some(offset)
                    && payload.data.limit == Some(limit) && 0 <= offset
                    && (total <= offset + limit || total <= offset + |Hits(payload)|))
  {
  }

  // ----- what a run of requests looks like -----

  /** Requests 1..n are all answered. */
  ghost predicate Answered(server: Server, n: nat) {
    forall k :: 1 <= k <= n ==> server(k).Some?
  }

  function Collected(server: Server, n: nat): nat {
    if n == 0 then 0
    else Collected(server, n - 1) + (if server(n).Some? then |Hits(server(n).value)| else 0)
  }

  /** Answer `n` satisfies the stop test. */
  predicate StopsAt(pageSize: int, server: Server, n: nat) {
    server(n).Some? &&
    IsLastPage(pageSize, server(n).value, n, |Hits(server(n).value)|, Collected(server, n))
  }

  ghost predicate AllDifferent(server: Server, n: nat) {
    forall j, k :: 1 <= j < k <= n ==> server(j) != server(k)
  }

  /** The first `n` requests are answered, with different pages, none of them last. */
  ghost predicate GoesOn(pageSize: int, server: Server, n: nat) {
    Answered(server, n) && AllDifferent(server, n) && forall k :: 1 <= k <= n ==> !StopsAt(pageSize, server, k)
  }

  /** A normal end after `n` pages. */
  ghost predicate EndsAt(pageSize: int, server: Server, n: nat) {
    && 1 <= n <= MAX_PAGES && GoesOn(pageSize, server, n - 1)
    && Answered(server, n) && AllDifferent(server, n) && StopsAt(pageSize, server, n)
  }

  function Pages(server: Server, n: nat): seq<Page>
    requires Answered(server, n)
  {
    seq(n, i requires 0 <= i < n => Page(i + 1, server(i + 1).value))
  }

  ghost function SeenPages(server: Server, n: nat): set<Payload> {
    set k | 1 <= k <= n && server(k).Some? :: server(k).value
  }

  lemma SeenGrows(server: Server, n: nat)
    requires n >= 1 && server(n).Some?
    ensures SeenPages(server, n) == SeenPages(server, n - 1) + {server(n).value}
    ensures server(n).value !in SeenPages(server, n - 1) && AllDifferent(server, n - 1) ==> AllDifferent(server, n)
  {
  }

  /** There is only one way to end, so the number of pages is determined by the answers. */
  lemma EndIsUnique(pageSize: int, server: Server, m: nat, n: nat)
    requires EndsAt(pageSize, server, m) && EndsAt(pageSize, server, n)
    ensures m == n
  {
    assert StopsAt(pageSize, server, m) && StopsAt(pageSize, server, n);
  }

  /** The first `n` requests go on, and request `n + 1` is refused, repeats a page or is one
      too many: then there is no normal end at all. */
  ghost predicate FailsAfter(pageSize: int, server: Server, n: nat) {
    && GoesOn(pageSize, server, n)
    && (n == MAX_PAGES || !Answered(server, n + 1) || !AllDifferent(server, n + 1))
  }

  /** A normal end lies beyond every stretch of requests that goes on. */
  lemma EndLiesBeyond(pageSize: int, server: Server, n: nat, m: nat)
    requires GoesOn(pageSize, server, n) && EndsAt(pageSize, server, m)
    ensures n < m <= MAX_PAGES && Answered(server, n + 1) && AllDifferent(server, n + 1)
  {
    assert StopsAt(pageSize, server, m);
  }

  lemma FailureExcludesEnd(pageSize: int, server: Server, n: nat)
    requires FailsAfter(pageSize, server, n)
    ensures forall m :: !EndsAt(pageSize, server, m)
  {
    forall m: nat ensures !EndsAt(pageSize, server, m) {
      if EndsAt(pageSize, server, m) { EndLiesBeyond(pageSize, server, n, m); }
    }
  }

  /** The normal end reached after `n` requests is the only one. */
  lemma EndIsOnlyEnd(pageSize: int, server: Server, n: nat)
    requires EndsAt(pageSize, server, n)
    ensures forall m :: EndsAt(pageSize, server, m) ==> m == n
  {
    forall m: nat | EndsAt(pageSize, server, m) ensures m == n {
      EndIsUnique(pageSize, server, m, n);
    }
  }

  /** A new page, after requests that go on: one more different page, and either the only
      normal end or one more request that goes on. */
  lemma NewPage(pageSize: int, server: Server, n: nat)
    requires 1 <= n <= MAX_PAGES && GoesOn(pageSize, server, n - 1)
    requires server(n).Some? && server(n).value !in SeenPages(server, n - 1)
    ensures Answered(server, n) && SeenPages(server, n) == SeenPages(server, n - 1) + {server(n).value}
    ensures Pages(server, n) == Pages(server, n - 1) + [Page(n, server(n).value)]
    ensures StopsAt(pageSize, server, n) ==>
              EndsAt(pageSize, server, n) && forall m :: EndsAt(pageSize, server, m) ==> m == n
    ensures !StopsAt(pageSize, server, n) ==> GoesOn(pageSize, server, n)
  {
    SeenGrows(server, n);
    if StopsAt(pageSize, server, n) { EndIsOnlyEnd(pageSize, server, n); }
  }

  /** A request that is refused or answered with a page seen before has no normal end. */
  lemma NoNewPage(pageSize: int, server: Server, n: nat)
    requires n >= 1 && GoesOn(pageSize, server, n - 1)
    requires server(n).None? || server(n).value in SeenPages(server, n - 1)
    ensures forall m :: !EndsAt(pageSize, server, m)
    ensures server(n).Some? ==> exists k :: 1 <= k < n && server(k) == server(n)
  {
    FailureExcludesEnd(pageSize, server, n - 1);
  }

  /** Whatever the server does, at most MAX_PAGES requests are made; the result is the
      pages 1..n exactly when the answers end normally at `n`, and each error has its own
      exact cause. */
  method CollectPages(pageSize: int, server: Server) returns (r: Result<seq<Page>, Error>, requests: nat)
    ensures requests <= 1000
    ensures r.Ok? <==> EndsAt(pageSize, server, requests)
    ensures forall n :: EndsAt(pageSize, server, n) ==> r.Ok? && n == requests
    ensures r.Ok? ==> r.value == Pages(server, requests)
    ensures r == Err(TooManyPages) <==> requests == 1000 && GoesOn(pageSize, server, 1000)
    ensures r == Err(RepeatedPage) ==> requests >= 1 && GoesOn(pageSize, server, requests - 1)
                                       && exists k :: 1 <= k < requests && server(k) == server(requests)
    ensures r == Err(ClientFailed) ==> requests >= 1 && GoesOn(pageSize, server, requests - 1) && server(requests).None?
  {
    var results: seq<Page> := [];
    var pageNumber: nat := 1;
    var seen: set<Payload> := {};
    var collected: nat := 0;
    requests := 0;
    while true
      invariant 1 <= pageNumber == requests + 1 <= MAX_PAGES + 1
      invariant GoesOn(pageSize, server, requests)
      invariant results == Pages(server, requests) && collected == Collected(server, requests)
      invariant seen == SeenPages(server, requests)
      decreases MAX_PAGES + 1 - pageNumber
    {
      if pageNumber > MAX_PAGES {
        FailureExcludesEnd(pageSize, server, requests);
        return Err(TooManyPages), requests;
      }
      var answer := server(pageNumber);
      requests := requests + 1;
      if answer.None? {
        NoNewPage(pageSize, server, requests);
        return Err(ClientFailed), requests;
      }
      var payload := answer.value;
      if payload in seen {
        NoNewPage(pageSize, server, requests);
        return Err(RepeatedPage), requests;
      }
      NewPage(pageSize, server, requests);
      seen := seen + {payload};
      results := results + [Page(pageNumber, payload)];
      collected := collected + |Hits(payload)|;
      if IsLastPage(pageSize, payload, pageNumber, |Hits(payload)|, collected) { return Ok(results), requests; }
      pageNumber := pageNumber + 1;
    }
  }

  /** Every page before the last is full. */
  lemma EarlierPagesAreFull(pageSize: int, server: Server, n: nat, k: nat)
    requires EndsAt(pageSize, server, n) && 1 <= k < n
    ensures server(k).Some? && |Hits(server(k).value)| >= pageSize
    ensures !StopsAt(pageSize, server, k)
  {
    assert !StopsAt(pageSize, server, k);
  }

  // ----- a server that really pages through a list -----

  function Start(pageSize: nat, k: nat): nat {
    if k == 0 then 0 else Start(pageSize, k - 1) + pageSize
  }

  function Least(a: nat, b: nat): nat { if a < b then a else b }

  /** The alarms of page `k`. */
  function Slice(alarms: seq<Alarm>, pageSize: nat, k: nat): seq<Alarm>
    requires k >= 1
  {
    var from := Least(Start(pageSize, k - 1), |alarms|);
    alarms[from..Least(from + pageSize, |alarms|)]
  }

  /** Page `k` holds its slice of the alarms, and none of the counts it may give
      understates how many alarms or pages there are, or overstates how far it got. */
  ghost predicate HonestPage(alarms: seq<Alarm>, pageSize: nat, k: nat, p: Payload) {
    && k >= 1 && p.Object? && p.data.Data? && p.data.hits == Some(Slice(alarms, pageSize, k))
    && (p.data.totalCount.Some? ==> p.data.totalCount.value >= |alarms|)
    && (p.data.totalPage.Some? ==> p.data.totalPage.value >= 0 && Start(pageSize, p.data.totalPage.value) >= |alarms|)
    && (p.data.offset.Some? ==> p.data.offset.value <= Start(pageSize, k - 1))
    && (p.data.limit.Some? ==> p.data.limit.value <= pageSize)
  }

  ghost predicate Honest(alarms: seq<Alarm>, pageSize: nat, server: Server) {
    forall k :: k >= 1 ==> server(k).Some? && HonestPage(alarms, pageSize, k, server(k).value)
  }

  lemma {:induction false} StartIsMonotonic(pageSize: nat, j: nat, k: nat)
    requires j <= k
    ensures Start(pageSize, j) <= Start(pageSize, k)
    ensures pageSize > 0 && j < k ==> Start(pageSize, j) + pageSize <= Start(pageSize, k)
    decreases k - j
  {
    if j + 1 < k { StartIsMonotonic(pageSize, j, k - 1); }
  }

  lemma {:induction false} StartIsProduct(pageSize: nat, k: nat)
    ensures Start(pageSize, k) == k * pageSize
  {
    if k > 0 { StartIsProduct(pageSize, k - 1); }
  }

  lemma {:induction false} HonestCollected(alarms: seq<Alarm>, pageSize: nat, server: Server, n: nat)
    requires Honest(alarms, pageSize, server)
    ensures Collected(server, n) == Least(Start(pageSize, n), |alarms|)
  {
    if n > 0 { HonestCollected(alarms, pageSize, server, n - 1); }
  }

  /** The stop test never fires on a page after which alarms are still missing. */
  lemma HonestStopIsComplete(alarms: seq<Alarm>, pageSize: nat, server: Server, n: nat)
    requires pageSize > 0 && Honest(alarms, pageSize, server) && n >= 1 && StopsAt(pageSize, server, n)
    ensures Start(pageSize, n) >= |alarms|
  {
    HonestCollected(alarms, pageSize, server, n);
    var d := server(n).value.data;
    assert HonestPage(alarms, pageSize, n, server(n).value);
    if d.totalPage.Some? && n >= d.totalPage.value {
      StartIsMonotonic(pageSize, d.totalPage.value, n);
    }
  }

  /** A page that is not full stops the collection. */
  lemma ShortPageStops(alarms: seq<Alarm>, pageSize: nat, server: Server, n: nat)
    requires pageSize > 0 && Honest(alarms, pageSize, server) && n >= 1 && Start(pageSize, n) > |alarms|
    ensures StopsAt(pageSize, server, n)
  {
    assert HonestPage(alarms, pageSize, n, server(n).value);
  }

  lemma SliceHead(alarms: seq<Alarm>, pageSize: nat, k: nat)
    requires pageSize > 0 && k >= 1
    ensures Slice(alarms, pageSize, k) == [] <==> Start(pageSize, k - 1) >= |alarms|
    ensures Slice(alarms, pageSize, k) != [] ==> Slice(alarms, pageSize, k)[0] == alarms[Start(pageSize, k - 1)]
  {
  }

  lemma SliceStep(alarms: seq<Alarm>, pageSize: nat, k: nat)
    requires k >= 1
    ensures alarms[..Least(Start(pageSize, k - 1), |alarms|)] + Slice(alarms, pageSize, k)
         == alarms[..Least(Start(pageSize, k), |alarms|)]
  {
  }

  /** The alarms that open pages `j` and `k` differ. */
  ghost predicate HeadsDiffer(alarms: seq<Alarm>, pageSize: nat, j: nat, k: nat)
    requires 1 <= j && 1 <= k
  {
    Start(pageSize, j - 1) < |alarms| && Start(pageSize, k - 1) < |alarms| ==>
      alarms[Start(pageSize, j - 1)] != alarms[Start(pageSize, k - 1)]
  }

  lemma SlicesDiffer(alarms: seq<Alarm>, pageSize: nat, j: nat, k: nat)
    requires pageSize > 0 && 1 <= j < k && HeadsDiffer(alarms, pageSize, j, k)
    requires Start(pageSize, j - 1) < |alarms|
    ensures Slice(alarms, pageSize, j) != Slice(alarms, pageSize, k)
  {
    SliceHead(alarms, pageSize, j);
    SliceHead(alarms, pageSize, k);
  }

  lemma HonestHitsAt(alarms: seq<Alarm>, pageSize: nat, server: Server, k: nat)
    requires Honest(alarms, pageSize, server) && k >= 1
    ensures server(k).Some? && Hits(server(k).value) == Slice(alarms, pageSize, k)
  {
    assert HonestPage(alarms, pageSize, k, server(k).value);
  }

  lemma HonestPagesDiffer(alarms: seq<Alarm>, pageSize: nat, server: Server, j: nat, k: nat)
    requires pageSize > 0 && Honest(alarms, pageSize, server) && 1 <= j < k
    requires HeadsDiffer(alarms, pageSize, j, k) && Start(pageSize, j - 1) < |alarms|
    ensures server(j) != server(k)
  {
    HonestHitsAt(alarms, pageSize, server, j);
    HonestHitsAt(alarms, pageSize, server, k);
    SlicesDiffer(alarms, pageSize, j, k);
  }

  lemma DistinctHeadsDiffer(alarms: seq<Alarm>, pageSize: nat, j: nat, k: nat)
    requires pageSize > 0 && Distinct(alarms) && 1 <= j < k
    ensures HeadsDiffer(alarms, pageSize, j, k) && Start(pageSize, j - 1) < Start(pageSize, k - 1)
  {
    StartIsMonotonic(pageSize, j - 1, k - 1);
  }

  /** The first `n` pages as one list. */
  function AllHits(server: Server, n: nat): seq<Alarm> {
    if n == 0 then []
    else AllHits(server, n - 1) + (if server(n).Some? then Hits(server(n).value) else [])
  }

  lemma {:induction false} HonestHits(alarms: seq<Alarm>, pageSize: nat, server: Server, n: nat)
    requires Honest(alarms, pageSize, server)
    ensures AllHits(server, n) == alarms[..Least(Start(pageSize, n), |alarms|)]
  {
    if n > 0 {
      HonestHits(alarms, pageSize, server, n - 1);
      HonestHitsAt(alarms, pageSize, server, n);
      SliceStep(alarms, pageSize, n);
    }
  }

  lemma NewPageDiffers(alarms: seq<Alarm>, pageSize: nat, server: Server, n: nat)
    requires pageSize > 0 && Honest(alarms, pageSize, server) && Distinct(alarms)
    requires n >= 1 && Start(pageSize, n - 1) <= |alarms|
    ensures forall j :: 1 <= j < n ==> server(j) != server(n)
  {
    forall j | 1 <= j < n ensures server(j) != server(n) {
      StartIsMonotonic(pageSize, j, n - 1);
      DistinctHeadsDiffer(alarms, pageSize, j, n);
      HonestPagesDiffer(alarms, pageSize, server, j, n);
    }
  }

  lemma HonestServerEnds(alarms: seq<Alarm>, pageSize: nat, server: Server, n: nat) returns (last: nat)
    requires pageSize > 0 && Honest(alarms, pageSize, server) && |alarms| < MAX_PAGES * pageSize
    requires forall j, k :: 1 <= j < k && Start(pageSize, k - 1) <= |alarms| ==> server(j) != server(k)
    requires 1 <= n <= MAX_PAGES && GoesOn(pageSize, server, n - 1) && Start(pageSize, n - 1) <= |alarms|
    ensures EndsAt(pageSize, server, last)
    decreases MAX_PAGES - n
  {
    assert Answered(server, n) && AllDifferent(server, n);
    if StopsAt(pageSize, server, n) {
      last := n;
    } else {
      if Start(pageSize, n) > |alarms| { ShortPageStops(alarms, pageSize, server, n); }
      StartIsProduct(pageSize, n);
      last := HonestServerEnds(alarms, pageSize, server, n + 1);
    }
  }

  /** Against a server that pages honestly through a list of fewer than 1000 full pages of
      different alarms, the collection always ends normally and has every alarm, in order. */
  lemma HonestServerIsCollectedCompletely(alarms: seq<Alarm>, pageSize: nat, server: Server) returns (n: nat)
    requires Honest(alarms, pageSize, server) && Distinct(alarms)
    requires |alarms| < 1000 * pageSize
    ensures EndsAt(pageSize, server, n) && AllHits(server, n) == alarms
  {
    forall j, k | 1 <= j < k && Start(pageSize, k - 1) <= |alarms| ensures server(j) != server(k) {
      NewPageDiffers(alarms, pageSize, server, k);
    }
    n := HonestServerEnds(alarms, pageSize, server, 1);
    CompleteAtEnd(alarms, pageSize, server, n);
  }

  /** The page tells the exact number of alarms, or of pages. */
  ghost predicate TellsExactly(alarms: seq<Alarm>, pageSize: nat, d: Data)
    requires d.Data?
  {
    || d.totalCount == Some(|alarms|)
    || (d.totalPage.Some? && d.totalPage.value >= 0
        && (d.totalPage.value > 0 ==> Start(pageSize, d.totalPage.value - 1) < |alarms|))
  }

  /** When an honest server tells how much there is, the collection ends at the first page
      after which no alarm is missing. */
  lemma EndsOnceComplete(alarms: seq<Alarm>, pageSize: nat, server: Server, n: nat)
    requires pageSize > 0 && Honest(alarms, pageSize, server) && EndsAt(pageSize, server, n)
    requires forall k :: k >= 1 ==> server(k).Some? && HonestPage(alarms, pageSize, k, server(k).value)
                                    && TellsExactly(alarms, pageSize, server(k).value.data)
    ensures Start(pageSize, n) >= |alarms| && (n > 1 ==> Start(pageSize, n - 1) < |alarms|)
  {
    HonestStopIsComplete(alarms, pageSize, server, n);
    if n > 1 {
      assert !StopsAt(pageSize, server, n - 1);
      HonestCollected(alarms, pageSize, server, n - 1);
      var d := server(n - 1).value.data;
      if d.totalPage.Some? && d.totalPage.value > 0 && n - 1 < d.totalPage.value {
        StartIsMonotonic(pageSize, n - 1, d.totalPage.value - 1);
      }
    }
  }

  /** When it tells nothing, the collection ends at the first page that is not full. */
  lemma EndsAtShortPage(alarms: seq<Alarm>, pageSize: nat, server: Server, n: nat)
    requires pageSize > 0 && Honest(alarms, pageSize, server) && EndsAt(pageSize, server, n)
    requires forall k :: k >= 1 ==> server(k).Some? && HonestPage(alarms, pageSize, k, server(k).value)
                                    && server(k).value.data.totalCount == None && server(k).value.data.totalPage == None
    ensures |Slice(alarms, pageSize, n)| < pageSize
    ensures forall k :: 1 <= k < n ==> |Slice(alarms, pageSize, k)| == pageSize
  {
    HonestHitsAt(alarms, pageSize, server, n);
    assert StopsAt(pageSize, server, n);
    forall k | 1 <= k < n ensures |Slice(alarms, pageSize, k)| == pageSize {
      assert !StopsAt(pageSize, server, k);
      HonestHitsAt(alarms, pageSize, server, k);
    }
  }

  lemma CompleteAtEnd(alarms: seq<Alarm>, pageSize: nat, server: Server, n: nat)
    requires pageSize > 0 && Honest(alarms, pageSize, server) && EndsAt(pageSize, server, n)
    ensures AllHits(server, n) == alarms
  {
    HonestStopIsComplete(alarms, pageSize, server, n);
    HonestHits(alarms, pageSize, server, n);
    assert alarms[..|alarms|] == alarms;
  }
}
