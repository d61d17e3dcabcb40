/** Per-second statistics of a server in ring buffers of one minute. */
module SudokuStat {

  const K_SECONDS := 60
  const MICROS := 1000000

  /** secondsSinceEpoch of a time in microseconds, rounded toward zero. */
  function Seconds(us: int): (s: int)
    ensures us >= 0 ==> s * 1000000 <= us < (s + 1) * 1000000
    ensures us < 0 ==> (s - 1) * 1000000 < us <= s * 1000000
  {
    if us >= 0 then us / MICROS else -((-us) / MICROS)
  }

  datatype Response = Response(second: int, elapsed: int, solved: bool)

  // ---------------------------------------------------------------- the history that the buffers summarise

  /** Responses of one second, those with a negative latency left aside. */
  ghost function Count(h: seq<Response>, second: int): (n: nat) {
    if h == [] then 0 else
      var r := h[|h| - 1];
      Count(h[..|h| - 1], second) + (if r.elapsed >= 0 && r.second == second then 1 else 0)
  }

  ghost function Latency(h: seq<Response>, second: int): (n: nat) {
    if h == [] then 0 else
      var r := h[|h| - 1];
      Latency(h[..|h| - 1], second) + (if r.elapsed >= 0 && r.second == second then r.elapsed else 0)
  }

  ghost function Solved(h: seq<Response>): (n: nat) {
    if h == [] then 0 else Solved(h[..|h| - 1]) + (if h[|h| - 1].solved then 1 else 0)
  }

  ghost function Bad(h: seq<Response>): (n: nat) {
    if h == [] then 0 else Bad(h[..|h| - 1]) + (if h[|h| - 1].elapsed < 0 then 1 else 0)
  }

  ghost function TotalLatency(h: seq<Response>): (n: nat) {
    if h == [] then 0 else TotalLatency(h[..|h| - 1]) + (if h[|h| - 1].elapsed >= 0 then h[|h| - 1].elapsed else 0)
  }

  /** No response with a usable latency is later than this. */
  ghost predicate Latest(h: seq<Response>, last: int) {
    forall i :: 0 <= i < |h| && h[i].elapsed >= 0 ==> h[i].second <= last
  }

  /** boost::circular_buffer::push_back. */
  function Push(buffer: seq<int>, x: int): (r: seq<int>)
    requires |buffer| <= 60
    ensures |r| == (if |buffer| < 60 then |buffer| + 1 else 60) && r[|r| - 1] == x
    ensures forall i :: 0 <= i < |r| - 1 ==> r[i] == buffer[i + |buffer| + 1 - |r|]
  {
    if |buffer| < K_SECONDS then buffer + [x] else buffer[1..] + [x]
  }

  /** The buffers hold the history of the seconds that end with last. */
  ghost predicate Window(requests: seq<int>, latencies: seq<int>, last: int, h: seq<Response>) {
    && |requests| == |latencies| <= 60
    && Latest(h, last)
    && forall i :: 0 <= i < |requests| ==> Sums(requests[i], latencies[i], last - |requests| + 1 + i, h)
  }

  ghost predicate Sums(requests: int, latency: int, second: int, h: seq<Response>) {
    requests == Count(h, second) && latency == Latency(h, second)
  }

  lemma {:induction false} NothingLater(h: seq<Response>, last: int, second: int)
    requires Latest(h, last) && second > last
    ensures Count(h, second) == 0 && Latency(h, second) == 0
  {
    if h == [] {
    } else {
      NothingLater(h[..|h| - 1], last, second);
    }
  }

  lemma NextSecond(requests: seq<int>, latencies: seq<int>, last: int, h: seq<Response>)
    requires Window(requests, latencies, last, h)
    ensures Window(Push(requests, 0), Push(latencies, 0), last + 1, h)
  {
    hide Count, Latency, Push;
    NothingLater(h, last, last + 1);
  }

  /** Starting afresh at a later second. */
  lemma Restart(last: int, second: int, h: seq<Response>)
    requires Latest(h, last) && second > last
    ensures Window([0], [0], second, h)
  {
    NothingLater(h, last, second);
  }

  lemma CountSnoc(h: seq<Response>, r: Response, second: int)
    ensures Count(h + [r], second) == Count(h, second) + (if r.elapsed >= 0 && r.second == second then 1 else 0)
    ensures Latency(h + [r], second) == Latency(h, second) + (if r.elapsed >= 0 && r.second == second then r.elapsed else 0)
  {
    assert (h + [r])[..|h|] == h;
  }

  /** Counting a response at its place in the window. */
  lemma Counted(requests: seq<int>, latencies: seq<int>, last: int, h: seq<Response>, r: Response, i: nat)
    requires Window(requests, latencies, last, h) && i < |requests| && r.elapsed >= 0
    requires r.second == last - |requests| + 1 + i
    ensures Window(requests[i := requests[i] + 1], latencies[i := latencies[i] + r.elapsed], last, h + [r])
  {
    hide Count, Latency;
    var requests', latencies' := requests[i := requests[i] + 1], latencies[i := latencies[i] + r.elapsed];
    forall j | 0 <= j < |requests|
      ensures Sums(requests'[j], latencies'[j], last - |requests| + 1 + j, h + [r])
    {
      CountSnoc(h, r, last - |requests| + 1 + j);
    }
  }

  /** A response before the window, or with a negative latency, leaves the window as it is. */
  lemma Discarded(requests: seq<int>, latencies: seq<int>, last: int, h: seq<Response>, r: Response)
    requires Window(requests, latencies, last, h)
    requires r.elapsed < 0 || r.second <= last - |requests|
    ensures Window(requests, latencies, last, h + [r])
  {
    hide Count, Latency;
    forall j | 0 <= j < |requests|
      ensures Sums(requests[j], latencies[j], last - |requests| + 1 + j, h + [r])
    {
      CountSnoc(h, r, last - |requests| + 1 + j);
    }
  }

  lemma Totals(h: seq<Response>, r: Response)
    ensures Solved(h + [r]) == Solved(h) + (if r.solved then 1 else 0)
    ensures Bad(h + [r]) == Bad(h) + (if r.elapsed < 0 then 1 else 0)
    ensures TotalLatency(h + [r]) == TotalLatency(h) + (if r.elapsed >= 0 then r.elapsed else 0)
  {
    assert (h + [r])[..|h|] == h;
  }

  /** The last second, and how many seconds the window spans, after a response of the given second. */
  function Last(last: int, second: int): int {
    if last == 0 || second > last then second else last
  }

  function Span(size: nat, last: int, second: int): (n: int) {
    if last == second then size
    else if last + 1 == second || last == 0 then if size < K_SECONDS then size + 1 else K_SECONDS
    else if second <= last then size
    else if second < last + K_SECONDS then if size + second - last < K_SECONDS then size + second - last else K_SECONDS
    else 1
  }

  /** Where the window keeps its place: a last second of 0 with a window behind it is taken for no window at all. */
  predicate Aligned(size: nat, last: int, second: int) {
    last == 0 ==> size == 0 || second == 0 || second == 1
  }

  ghost predicate NoneUsable(h: seq<Response>) {
    forall i :: 0 <= i < |h| ==> h[i].elapsed < 0
  }

  /** Without usable responses a window may start anywhere. */
  lemma StartAnywhere(second: int, h: seq<Response>)
    requires NoneUsable(h)
    ensures Window([0], [0], second, h)
  {
    Restart(second - 1, second, h);
  }

  lemma {:induction false} CountWitness(h: seq<Response>, second: int) returns (i: nat)
    requires Count(h, second) > 0
    ensures i < |h| && h[i].elapsed >= 0 && h[i].second == second
  {
    var r := h[|h| - 1];
    if r.elapsed >= 0 && r.second == second {
      i := |h| - 1;
    } else {
      i := CountWitness(h[..|h| - 1], second);
    }
  }

  /** Pushing one second for a gap of more than one, or of none, puts counts where they do not belong. */
  lemma Misplaced(requests: seq<int>, latencies: seq<int>, h: seq<Response>, r: Response, requests': seq<int>, latencies': seq<int>)
    requires Window(requests, latencies, 0, h) && requests != [] && requests[|requests| - 1] >= 1
    requires r.elapsed >= 0 && r.second != 0 && r.second != 1
    requires |requests'| == |requests| + 1 || |requests'| == |requests| == 60
    requires requests'[|requests'| - 2] == requests[|requests| - 1]
    ensures !Window(requests', latencies', r.second, h + [r])
  {
    hide Count, Latency;
    var n := |requests| - 1;
    assert Sums(requests[n], latencies[n], 0 - |requests| + 1 + n, h);
    if r.second < 0 {
      var i := CountWitness(h, 0);
      assert (h + [r])[i] == h[i];
    } else if |requests'| == |latencies'| {
      var k := |requests'| - 2;
      NothingLater(h, 0, r.second - 1);
      CountSnoc(h, r, r.second - 1);
      assert !Sums(requests'[k], latencies'[k], r.second - |requests'| + 1 + k, h + [r]);
    }
  }

  /** The seconds from first to last. */
  ghost predicate Covers(first: int, last: int, second: int) {
    first <= second <= last
  }

  /**
   * How a window that keeps its place moves on to a later second: within a minute it holds all it held of the last 60
   * seconds and every second since, after a longer gap that second alone; for any other second it stays.
   */
  ghost predicate MovedOn(first: int, last: int, second: int, first': int, last': int) {
    if second <= last then first' == first && last' == last
    else if second < last + 60 then last' == second && forall t :: Covers(first', last', t) <==> first <= t && second - 60 < t <= second
    else first' == last' == second
  }

  lemma SpanMovesOn(size: nat, last: int, second: int)
    requires 0 < size <= 60 && Aligned(size, last, second)
    ensures MovedOn(last - size + 1, last, second, Last(last, second) - Span(size, last, second) + 1, Last(last, second))
  {
  }

  // ---------------------------------------------------------------- the statistics object

  class Stat {
    var lastSecond: int
    var requests: seq<int>
    var latencies: seq<int>
    var totalRequests: int
    var totalResponses: int
    var totalSolved: int
    var badRequests: int
    var droppedRequests: int
    var totalLatency: int
    var badLatency: int
    ghost var history: seq<Response>

    ghost predicate Valid()
      reads this
    {
      && Window(requests, latencies, lastSecond, history)
      && (requests == [] ==> lastSecond == 0 && NoneUsable(history))
      && (requests != [] ==> requests[|requests| - 1] >= 1)
      && totalResponses == |history| && totalSolved == Solved(history)
      && badLatency == Bad(history) && totalLatency == TotalLatency(history)
    }

    /** The first second of the window. */
    function First(): int
      reads this
    {
      lastSecond - |requests| + 1
    }

    constructor ()
      ensures Valid() && history == []
    {
      lastSecond, requests, latencies := 0, [], [];
      totalRequests, totalResponses, totalSolved, badRequests, droppedRequests := 0, 0, 0, 0, 0;
      totalLatency, badLatency, history := 0, 0, [];
    }

    /** Everything but the dropped requests starts again. */
    method Reset()
      modifies this
      ensures Valid() && history == [] && totalRequests == 0 && badRequests == 0
      ensures droppedRequests == old(droppedRequests)
    {
      lastSecond, requests, latencies := 0, [], [];
      totalRequests, totalResponses, totalSolved, badRequests := 0, 0, 0, 0;
      totalLatency, badLatency, history := 0, 0, [];
    }

    method CountLast(elapsed: int)
      requires requests != [] && latencies != []
      modifies this`requests, this`latencies
      ensures requests == old(requests)[|old(requests)| - 1 := old(requests)[|old(requests)| - 1] + 1]
      ensures latencies == old(latencies)[|old(latencies)| - 1 := old(latencies)[|old(latencies)| - 1] + elapsed]
    {
      requests := requests[|requests| - 1 := requests[|requests| - 1] + 1];
      latencies := latencies[|latencies| - 1 := latencies[|latencies| - 1] + elapsed];
    }

    /** Advances the window second by second, or past a gap of a minute starts a new one. */
    method JumpAhead(second: int)
      requires Window(requests, latencies, lastSecond, history) && requests != [] && second > lastSecond
      modifies this`requests, this`latencies, this`lastSecond
      ensures Window(requests, latencies, lastSecond, history) && requests != [] && lastSecond == second
      ensures old(lastSecond) != 0 ==> |requests| == Span(|old(requests)|, old(lastSecond), second)
      ensures MovedOn(old(First()), old(lastSecond), second, First(), lastSecond)
      ensures lastSecond - |requests| >= old(lastSecond - |requests|)
    {
      hide Window, Push;
      if second < lastSecond + K_SECONDS {
        WindowSizes(requests, latencies, lastSecond, history);
        while lastSecond < second
          invariant lastSecond <= second && requests != [] && |requests| == |latencies| <= K_SECONDS
          invariant Window(requests, latencies, lastSecond, history)
          invariant |requests| == (if |old(requests)| + lastSecond - old(lastSecond) < K_SECONDS
                                   then |old(requests)| + lastSecond - old(lastSecond) else K_SECONDS)
        {
          NextSecond(requests, latencies, lastSecond, history);
          requests := Push(requests, 0);
          latencies := Push(latencies, 0);
          lastSecond := lastSecond + 1;
        }
      } else {
        WindowSizes(requests, latencies, lastSecond, history);
        Restart(lastSecond, second, history);
        requests, latencies := [], [];
        lastSecond := second;
        requests := [0];
        latencies := [0];
      }
    }

    /** The branch for the next second, which is also taken for the first response of all. */
    method PlaceNext(second: int, elapsed: int, ghost r: Response)
      requires Window(requests, latencies, lastSecond, history) && (requests == [] ==> lastSecond == 0 && NoneUsable(history))
      requires requests != [] ==> requests[|requests| - 1] >= 1
      requires second != lastSecond && (lastSecond + 1 == second || lastSecond == 0)
      requires elapsed >= 0 && r.second == second && r.elapsed == elapsed
      modifies this`requests, this`latencies, this`lastSecond
      ensures lastSecond == second && |requests| == (if |old(requests)| < 60 then |old(requests)| + 1 else 60)
      ensures requests[|requests| - 1] >= 1
      ensures Window(requests, latencies, lastSecond, history + [r]) <==> Aligned(|old(requests)|, old(lastSecond), second)
    {
      hide Window;
      WindowSizes(requests, latencies, lastSecond, history);
      ghost var before, sums := requests, latencies;
      if requests == [] {
        StartAnywhere(second, history);
        EmptyPush(requests, latencies);
      } else if lastSecond + 1 == second {
        NextSecond(requests, latencies, lastSecond, history);
      }
      lastSecond := second;
      requests := Push(requests, 0);
      latencies := Push(latencies, 0);
      if before == [] || old(lastSecond) + 1 == second {
        Counted(requests, latencies, lastSecond, history, r, |requests| - 1);
      }
      CountLast(elapsed);
      if before != [] && old(lastSecond) + 1 != second {
        Misplaced(before, sums, history, r, requests, latencies);
      }
    }

    /** Puts a response with a usable latency into the window, moved on if need be. */
    method Place(second: int, elapsed: int, ghost r: Response)
      requires Window(requests, latencies, lastSecond, history) && (requests == [] ==> lastSecond == 0 && NoneUsable(history))
      requires requests != [] ==> requests[|requests| - 1] >= 1
      requires (requests == [] ==> second != 0) && elapsed >= 0 && r.second == second && r.elapsed == elapsed
      modifies this`requests, this`latencies, this`lastSecond
      ensures Window(requests, latencies, lastSecond, history + [r]) <==> Aligned(|old(requests)|, old(lastSecond), second)
      ensures requests != [] && requests[|requests| - 1] >= 1
      ensures lastSecond == Last(old(lastSecond), second) && |requests| == Span(|old(requests)|, old(lastSecond), second)
      ensures old(requests) != [] && Aligned(|old(requests)|, old(lastSecond), second) ==>
        MovedOn(old(First()), old(lastSecond), second, First(), lastSecond)
    {
      hide Window, Push, MovedOn;
      WindowSizes(requests, latencies, lastSecond, history);
      var firstSecond := lastSecond - |requests| + 1;
      if lastSecond == second {
        Counted(requests, latencies, lastSecond, history, r, |requests| - 1);
        CountLast(elapsed);
      } else if lastSecond + 1 == second || lastSecond == 0 {
        PlaceNext(second, elapsed, r);
      } else if second > lastSecond {
        JumpAhead(second);
        WindowSizes(requests, latencies, lastSecond, history);
        NotNegative(requests, latencies, lastSecond, history);
        Counted(requests, latencies, lastSecond, history, r, |requests| - 1);
        CountLast(elapsed);
      } else if second >= firstSecond {
        var idx := second - firstSecond;
        Counted(requests, latencies, lastSecond, history, r, idx);
        requests := requests[idx := requests[idx] + 1];
        latencies := latencies[idx := latencies[idx] + elapsed];
      } else {
        Discarded(requests, latencies, lastSecond, history, r);
      }
      if old(requests) != [] && Aligned(|old(requests)|, old(lastSecond), second) {
        SpanMovesOn(|old(requests)|, old(lastSecond), second);
      }
    }

    /** now and receive in microseconds; the first usable response must not be of second 0, whose place there is none. */
    method RecordResponse(now: int, receive: int, solved: bool)
      requires Valid() && (requests == [] && now >= receive ==> Seconds(now) != 0)
      modifies this
      ensures history == old(history) + [Response(Seconds(now), now - receive, solved)]
      ensures Valid() <==> now < receive || Aligned(|old(requests)|, old(lastSecond), Seconds(now))
      ensures Window(requests, latencies, lastSecond, history) <==> Valid()
      ensures now < receive ==> lastSecond == old(lastSecond) && |requests| == |old(requests)|
      ensures now >= receive ==> lastSecond == Last(old(lastSecond), Seconds(now))
      ensures now >= receive ==> |requests| == Span(|old(requests)|, old(lastSecond), Seconds(now))
      ensures now >= receive && old(requests) == [] ==> First() == lastSecond == Seconds(now)
      ensures now >= receive && old(requests) != [] && Aligned(|old(requests)|, old(lastSecond), Seconds(now)) ==>
        MovedOn(old(First()), old(lastSecond), Seconds(now), First(), lastSecond)
      ensures totalRequests == old(totalRequests) && badRequests == old(badRequests) && droppedRequests == old(droppedRequests)
    {
      hide Window, Push, Solved, Bad, TotalLatency, NoneUsable, MovedOn;
      var second := Seconds(now);
      var elapsed := now - receive;
      ghost var r := Response(second, elapsed, solved);
      Totals(history, r);
      StillNone(history, r);
      totalResponses := totalResponses + 1;
      if solved {
        totalSolved := totalSolved + 1;
      }
      if elapsed < 0 {
        badLatency := badLatency + 1;
        Discarded(requests, latencies, lastSecond, history, r);
      } else {
        totalLatency := totalLatency + elapsed;
        Place(second, elapsed, r);
      }
      history := history + [r];
    }

    /** The sums that report() prints for the last minute, with the average rounded down. */
    method Report() returns (requests60: int, latency60: int, average60: int, average: int)
      requires Valid()
      ensures requests60 == CountBetween(history, First(), lastSecond)
      ensures latency60 == LatencyBetween(history, First(), lastSecond)
      ensures average60 == (if requests60 == 0 then 0 else latency60 / requests60)
      ensures average == (if history == [] then 0 else TotalLatency(history) / |history|)
    {
      hide Count, Latency;
      requests60, latency60 := 0, 0;
      for i := 0 to |requests|
        invariant requests60 == CountBetween(history, First(), First() + i - 1)
      {
        requests60 := requests60 + requests[i];
      }
      for i := 0 to |latencies|
        invariant latency60 == LatencyBetween(history, First(), First() + i - 1)
      {
        latency60 := latency60 + latencies[i];
      }
      average60 := if requests60 == 0 then 0 else latency60 / requests60;
      average := if totalResponses == 0 then 0 else totalLatency / totalResponses;
    }
  }

  lemma StillNone(h: seq<Response>, r: Response)
    ensures r.elapsed < 0 && NoneUsable(h) ==> NoneUsable(h + [r])
  {
  }

  lemma NotNegative(requests: seq<int>, latencies: seq<int>, last: int, h: seq<Response>)
    requires Window(requests, latencies, last, h) && requests != []
    ensures requests[|requests| - 1] >= 0
  {
    var n := |requests| - 1;
    assert Sums(requests[n], latencies[n], last - |requests| + 1 + n, h);
  }

  /** With positive times the last second is 0 only before the first of them, so that the window always keeps its place. */
  lemma PositiveTimes(size: nat, last: int, second: int)
    requires last >= 0 && (last == 0 ==> size == 0) && second > 0
    ensures Aligned(size, last, second) && Last(last, second) > 0
  {
  }

  /** As long as the window keeps its place it never moves back. */
  lemma NeverBack(size: nat, last: int, second: int)
    requires 0 < size <= 60 && Aligned(size, last, second)
    ensures Last(last, second) - Span(size, last, second) >= last - size
  {
  }

  /** Times before the epoch: responses of seconds -1, 0 and 7 leave the counts in the wrong place. */
  method EarlyTimes() returns (s: Stat)
    ensures !Window(s.requests, s.latencies, s.lastSecond, s.history) && s.lastSecond == 7 && |s.requests| == 3
  {
    s := new Stat();
    s.RecordResponse(-1000000, -1000000, true);
    s.RecordResponse(0, 0, true);
    s.RecordResponse(7000000, 7000000, true);
  }

  ghost function CountBetween(h: seq<Response>, first: int, last: int): (n: nat)
    decreases last - first + 1
  {
    if last < first then 0 else CountBetween(h, first, last - 1) + Count(h, last)
  }

  ghost function LatencyBetween(h: seq<Response>, first: int, last: int): (n: nat)
    decreases last - first + 1
  {
    if last < first then 0 else LatencyBetween(h, first, last - 1) + Latency(h, last)
  }

  lemma WindowSizes(requests: seq<int>, latencies: seq<int>, last: int, h: seq<Response>)
    requires Window(requests, latencies, last, h)
    ensures |requests| == |latencies| <= 60 && Latest(h, last)
  {
  }

  lemma EmptyPush(requests: seq<int>, latencies: seq<int>)
    requires requests == [] && latencies == []
    ensures Push(requests, 0) == [0] && Push(latencies, 0) == [0]
  {
  }
}
