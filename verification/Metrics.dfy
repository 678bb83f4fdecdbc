/** The request metrics: counters in int64, per-method counts and lists of durations, and the statistics
    computed from them. All of it is tied to the history of requests since the last reset. */
module Metrics {
  import opened Values

  /** One finished request; duration is in nanoseconds */
  datatype Sample = Sample(rpc: string, duration: int, isError: bool)

  datatype MethodStats = MethodStats(count: int, average: int)

  datatype Stats = Stats(totalRequests: int, totalErrors: int, methods: map<string, MethodStats>)

  function Methods(history: seq<Sample>): set<string> {
    set sample | sample in history :: sample.rpc
  }

  function Durations(history: seq<Sample>, rpc: string): seq<int> {
    if history == [] then []
    else
      var last := history[|history| - 1];
      Durations(history[..|history| - 1], rpc) + if last.rpc == rpc then [last.duration] else []
  }

  function Errors(history: seq<Sample>): nat {
    if history == [] then 0
    else Errors(history[..|history| - 1]) + if history[|history| - 1].isError then 1 else 0
  }

  function Sum(durations: seq<int>): int {
    if durations == [] then 0 else Sum(durations[..|durations| - 1]) + durations[|durations| - 1]
  }

  /** Integer division truncates toward zero. */
  function Quotient(a: int, b: int): int
    requires b > 0
  {
    if a >= 0 then a / b else -(-a / b)
  }

  /** The average of the durations, were there no overflow */
  function TrueAverage(durations: seq<int>): int
    requires durations != []
  {
    Quotient(Sum(durations), |durations|)
  }

  /** What the statistics say after a history: every method that had a request is there, and no other. */
  ghost predicate Reports(stats: Stats, history: seq<Sample>) {
    && stats.totalRequests == Wrap64(|history|)
    && stats.totalErrors == Wrap64(Errors(history))
    && stats.methods.Keys == Methods(history)
    && forall rpc | rpc in stats.methods :: MethodReported(stats.methods[rpc], Durations(history, rpc))
  }

  ghost predicate MethodReported(m: MethodStats, durations: seq<int>) {
    && m.count == Wrap64(|durations|)
    && durations != []
    && m.average == Quotient(Wrap64(Sum(durations)), |durations|)
  }

  /** Each duration counts once, wherever it stands. */
  lemma {:induction false} SumAppends(a: seq<int>, b: seq<int>, d: int)
    ensures Sum([d]) == d
    ensures Sum(a + b) == Sum(a) + Sum(b)
    decreases |b|
  {
    assert [d][..0] == [];
    if b == [] {
      assert a + b == a;
    } else {
      var init := b[..|b| - 1];
      assert (a + b)[..|a + b| - 1] == a + init;
      SumAppends(a, init, d);
    }
  }

  lemma WrapAdds(a: int, b: int)
    ensures Wrap64(Wrap64(a) + b) == Wrap64(a + b)
  {
  }

  lemma {:induction false} SeenHasDurations(history: seq<Sample>, rpc: string)
    ensures rpc in Methods(history) <==> Durations(history, rpc) != []
  {
    if history != [] {
      var init, last := history[..|history| - 1], history[|history| - 1];
      assert history == init + [last];
      SeenHasDurations(init, rpc);
    }
  }

  lemma HistoryGrows(history: seq<Sample>, sample: Sample)
    ensures Methods(history + [sample]) == Methods(history) + {sample.rpc}
    ensures Errors(history + [sample]) == Errors(history) + if sample.isError then 1 else 0
    ensures forall rpc :: Durations(history + [sample], rpc)
                       == Durations(history, rpc) + if rpc == sample.rpc then [sample.duration] else []
  {
    var grown := history + [sample];
    assert grown[..|grown| - 1] == history;
    forall rpc | rpc in Methods(history) + {sample.rpc} ensures rpc in Methods(grown) {
      if rpc == sample.rpc {
        assert grown[|history|] == sample && sample in grown;
      } else {
        var earlier :| earlier in history && earlier.rpc == rpc;
        assert earlier in grown;
      }
    }
  }

  /** The two maps of the collector after a history */
  ghost predicate Tallied(history: seq<Sample>, counts: map<string, int>, durations: map<string, seq<int>>) {
    && counts.Keys == durations.Keys == Methods(history)
    && (forall rpc | rpc in durations :: durations[rpc] == Durations(history, rpc))
    && (forall rpc | rpc in counts :: counts[rpc] == Wrap64(|Durations(history, rpc)|))
  }

  function CountFor(counts: map<string, int>, rpc: string): int {
    if rpc in counts then counts[rpc] else 0
  }

  function ListFor(durations: map<string, seq<int>>, rpc: string): seq<int> {
    if rpc in durations then durations[rpc] else []
  }

  lemma TallyOne(history: seq<Sample>, sample: Sample, counts: map<string, int>, durations: map<string, seq<int>>)
    requires Tallied(history, counts, durations)
    ensures Tallied(history + [sample],
                    counts[sample.rpc := Wrap64(CountFor(counts, sample.rpc) + 1)],
                    durations[sample.rpc := ListFor(durations, sample.rpc) + [sample.duration]])
  {
    HistoryGrows(history, sample);
    SeenHasDurations(history, sample.rpc);
    WrapAdds(|Durations(history, sample.rpc)|, 1);
    hide Methods, Durations, Wrap64;
  }

  class MetricsCollector {
    var totalRequests: int
    var totalErrors: int
    var requestDurations: map<string, seq<int>>
    var methodCounts: map<string, int>
    /** The requests recorded since the last reset */
    ghost var history: seq<Sample>

    ghost predicate Valid()
      reads this
    {
      && totalRequests == Wrap64(|history|)
      && totalErrors == Wrap64(Errors(history))
      && Tallied(history, methodCounts, requestDurations)
    }

    constructor ()
      ensures Valid() && history == []
    {
      totalRequests, totalErrors, requestDurations, methodCounts, history := 0, 0, map[], map[], [];
    }

    method RecordRequest(rpc: string, duration: int, isError: bool)
      requires Valid()
      modifies this
      ensures Valid() && history == old(history) + [Sample(rpc, duration, isError)]
    {
      hide Tallied, Errors, Wrap64;
      WrapAdds(|history|, 1);
      WrapAdds(Errors(history), 1);
      HistoryGrows(history, Sample(rpc, duration, isError));
      TallyOne(history, Sample(rpc, duration, isError), methodCounts, requestDurations);
      history := history + [Sample(rpc, duration, isError)];
      totalRequests := Wrap64(totalRequests + 1);
      methodCounts := methodCounts[rpc := Wrap64(CountFor(methodCounts, rpc) + 1)];
      requestDurations := requestDurations[rpc := ListFor(requestDurations, rpc) + [duration]];
      if isError {
        totalErrors := Wrap64(totalErrors + 1);
      }
    }

    method Reset()
      modifies this
      ensures Valid() && history == []
    {
      totalRequests, totalErrors, requestDurations, methodCounts := 0, 0, map[], map[];
      history := [];
    }

    /** The methods are visited in any order. */
    method GetStats() returns (stats: Stats)
      requires Valid()
      ensures Reports(stats, history)
    {
      var methodStats: map<string, MethodStats> := map[];
      var left := methodCounts.Keys;
      while left != {}
        invariant left <= methodCounts.Keys && methodStats.Keys == methodCounts.Keys - left
        invariant forall rpc | rpc in methodStats :: MethodReported(methodStats[rpc], Durations(history, rpc))
        decreases |left|
      {
        var rpc :| rpc in left;
        left := left - {rpc};
        SeenHasDurations(history, rpc);
        var durations := requestDurations[rpc];
        if |durations| > 0 {
          var total := TotalOf(durations);
          methodStats := methodStats[rpc := MethodStats(methodCounts[rpc], Quotient(total, |durations|))];
        }
      }
      stats := Stats(totalRequests, totalErrors, methodStats);
    }
  }

  /** However the additions wrap on the way, the total is the wrapped sum. */
  method TotalOf(durations: seq<int>) returns (total: int)
    ensures total == Wrap64(Sum(durations))
  {
    total := 0;
    for i := 0 to |durations|
      invariant total == Wrap64(Sum(durations[..i]))
    {
      SumAppends(durations[..i], [durations[i]], durations[i]);
      assert durations[..i + 1] == durations[..i] + [durations[i]];
      WrapAdds(Sum(durations[..i]), durations[i]);
      total := Wrap64(total + durations[i]);
    }
    assert durations[..|durations|] == durations;
  }

  // ---------- Any split of the history ----------

  lemma {:induction false} HistoryAppends(a: seq<Sample>, b: seq<Sample>, rpc: string)
    ensures Errors(a + b) == Errors(a) + Errors(b)
    ensures Durations(a + b, rpc) == Durations(a, rpc) + Durations(b, rpc)
    decreases |b|
  {
    if b == [] {
      assert a + b == a;
    } else {
      var init := b[..|b| - 1];
      assert (a + b)[..|a + b| - 1] == a + init;
      HistoryAppends(a, init, rpc);
    }
  }

  lemma OneSample(sample: Sample)
    ensures Errors([sample]) == if sample.isError then 1 else 0
    ensures Methods([sample]) == {sample.rpc} && Durations([sample], sample.rpc) == [sample.duration]
  {
    assert [] + [sample] == [sample];
    HistoryGrows([], sample);
  }

  /** After one request: it is counted once, as an error if it was one, and its duration is the average. */
  lemma StatsOfOne(stats: Stats, rpc: string, duration: int, isError: bool)
    requires Reports(stats, [Sample(rpc, duration, isError)]) && FitsInt64(duration)
    ensures stats.totalRequests == 1 && stats.totalErrors == if isError then 1 else 0
    ensures stats.methods == map[rpc := MethodStats(1, duration)]
  {
    hide Durations, Errors, Methods, Sum;
    OneSample(Sample(rpc, duration, isError));
    SumAppends([], [], duration);
    assert rpc in stats.methods.Keys;
    assert MethodReported(stats.methods[rpc], [duration]);
  }

  function CountIn(stats: Stats, rpc: string): int {
    if rpc in stats.methods then stats.methods[rpc].count else 0
  }

  lemma CountIsWrapped(stats: Stats, history: seq<Sample>, rpc: string)
    requires Reports(stats, history)
    ensures CountIn(stats, rpc) == Wrap64(|Durations(history, rpc)|)
  {
    SeenHasDurations(history, rpc);
    if rpc in stats.methods {
      assert MethodReported(stats.methods[rpc], Durations(history, rpc));
    }
  }

  /** However a history is split in two, the totals, the counts and the sums of durations add up. */
  lemma StatsOfSplit(stats: Stats, first: Stats, second: Stats, a: seq<Sample>, b: seq<Sample>, rpc: string)
    requires Reports(stats, a + b) && Reports(first, a) && Reports(second, b)
    ensures stats.totalRequests == Wrap64(first.totalRequests + second.totalRequests)
    ensures stats.totalErrors == Wrap64(first.totalErrors + second.totalErrors)
    ensures rpc in stats.methods <==> rpc in first.methods || rpc in second.methods
    ensures rpc in stats.methods ==>
              var da, db := Durations(a, rpc), Durations(b, rpc);
              var m := stats.methods[rpc];
              && m.count == Wrap64(CountIn(first, rpc) + CountIn(second, rpc))
              && |da| + |db| > 0
              && m.average == Quotient(Wrap64(Sum(da) + Sum(db)), |da| + |db|)
  {
    HistoryAppends(a, b, rpc);
    SeenHasDurations(a, rpc);
    SeenHasDurations(b, rpc);
    SeenHasDurations(a + b, rpc);
    hide Durations, Errors, Sum, Wrap64, Quotient, Methods;
    WrapsAdd(|a|, |b|);
    WrapsAdd(Errors(a), Errors(b));
    if rpc in stats.methods {
      var da, db := Durations(a, rpc), Durations(b, rpc);
      assert MethodReported(stats.methods[rpc], da + db);
      SumAppends(da, db, 0);
      CountIsWrapped(first, a, rpc);
      CountIsWrapped(second, b, rpc);
      WrapsAdd(|da|, |db|);
    }
  }

  lemma WrapsAdd(a: int, b: int)
    ensures Wrap64(a + b) == Wrap64(Wrap64(a) + Wrap64(b))
  {
    WrapAdds(a, Wrap64(b));
    WrapAdds(b, a);
    hide Wrap64;
  }

  // ---------- Conservation ----------

  function SumOfCounts(stats: Stats, order: seq<string>): int
    requires forall rpc | rpc in order :: rpc in stats.methods
  {
    if order == [] then 0 else stats.methods[order[0]].count + SumOfCounts(stats, order[1..])
  }

  function RequestsFor(history: seq<Sample>, order: seq<string>): nat {
    if order == [] then 0 else |Durations(history, order[0])| + RequestsFor(history, order[1..])
  }

  lemma {:induction false} OneMore(history: seq<Sample>, order: seq<string>)
    requires history != [] && NoRepeats(order)
    ensures RequestsFor(history, order)
         == RequestsFor(history[..|history| - 1], order) + if history[|history| - 1].rpc in order then 1 else 0
  {
    if order != [] {
      OneMore(history, order[1..]);
      assert order == [order[0]] + order[1..];
      assert order[0] !in order[1..];
    }
  }

  lemma {:induction false} RequestsAddUp(history: seq<Sample>, order: seq<string>)
    requires NoRepeats(order) && forall rpc | rpc in Methods(history) :: rpc in order
    ensures RequestsFor(history, order) == |history|
  {
    if history == [] {
      NoRequests(order);
    } else {
      var init, last := history[..|history| - 1], history[|history| - 1];
      assert last in history && last.rpc in Methods(history);
      forall rpc | rpc in Methods(init) ensures rpc in order {
        var sample :| sample in init && sample.rpc == rpc;
        assert sample in history;
      }
      RequestsAddUp(init, order);
      OneMore(history, order);
    }
  }

  lemma {:induction order} NoRequests(order: seq<string>)
    ensures RequestsFor([], order) == 0
  {
  }

  lemma {:induction false} CountsAreRequests(stats: Stats, history: seq<Sample>, order: seq<string>)
    requires Reports(stats, history) && forall rpc | rpc in order :: rpc in stats.methods
    ensures Wrap64(SumOfCounts(stats, order)) == Wrap64(RequestsFor(history, order))
    ensures RequestsFor(history, order) <= MAX_INT64 ==> SumOfCounts(stats, order) == RequestsFor(history, order)
  {
    hide Durations, Wrap64;
    if order != [] {
      CountsAreRequests(stats, history, order[1..]);
      var n := |Durations(history, order[0])|;
      var rest, known := SumOfCounts(stats, order[1..]), RequestsFor(history, order[1..]);
      assert MethodReported(stats.methods[order[0]], Durations(history, order[0]));
      WrapAdds(n, rest);
      WrapAdds(rest, n);
      WrapAdds(known, n);
    }
  }

  lemma {:induction history} ErrorsAreRequests(history: seq<Sample>)
    ensures Errors(history) <= |history|
  {
  }

  /** After any run of records and resets: the total is the sum of the method counts modulo 2^64, in any
      order of the methods; up to 2^63 - 1 requests since the reset it is their sum, both totals are exact and
      no more errors than requests are reported. The request total is exact only up to there. */
  lemma StatsAddUp(stats: Stats, history: seq<Sample>, order: seq<string>)
    requires Reports(stats, history)
    requires NoRepeats(order) && forall rpc :: rpc in order <==> rpc in stats.methods
    ensures stats.totalRequests == Wrap64(SumOfCounts(stats, order))
    ensures stats.totalRequests == |history| <==> |history| <= MAX_INT64
    ensures |history| <= MAX_INT64 ==>
              && stats.totalRequests == SumOfCounts(stats, order)
              && 0 <= stats.totalErrors == Errors(history) <= stats.totalRequests
  {
    RequestsAddUp(history, order);
    CountsAreRequests(stats, history, order);
    ErrorsAreRequests(history);
  }

  // ---------- Averages ----------

  lemma QuotientBounds(a: int, b: int)
    requires b > 0
    ensures -b < a - Quotient(a, b) * b < b
    ensures a >= 0 ==> Quotient(a, b) * b <= a
    ensures a <= 0 ==> a <= Quotient(a, b) * b
  {
    if a < 0 {
      assert Quotient(a, b) * b == -((-a / b) * b);
    }
  }

  lemma QuotientsApart(a: int, b: int, n: int)
    requires n > 0
    ensures Quotient(a, n) == Quotient(b, n) ==> -2 * n < a - b < 2 * n
  {
    QuotientBounds(a, n);
    QuotientBounds(b, n);
    hide Quotient;
  }

  lemma WrapsFar(x: int)
    ensures !FitsInt64(x) ==> Wrap64(x) - x >= TWO_TO_THE_64 || x - Wrap64(x) >= TWO_TO_THE_64
  {
  }

  /** The reported average is the average, truncated toward zero, exactly when the sum fits an int64. */
  lemma AverageIsTrueExactly(m: MethodStats, durations: seq<int>)
    requires MethodReported(m, durations) && |durations| <= MAX_INT64
    ensures m.average == TrueAverage(durations) <==> FitsInt64(Sum(durations))
  {
    hide Quotient, Wrap64;
    WrapsFar(Sum(durations));
    QuotientsApart(Wrap64(Sum(durations)), Sum(durations), |durations|);
  }

  lemma OneMoreTimes(x: int, n: nat)
    ensures x * (n + 1) == x * n + x
  {
  }

  lemma {:induction false} SumBounds(durations: seq<int>, least: int, greatest: int)
    requires forall d | d in durations :: least <= d <= greatest
    ensures least * |durations| <= Sum(durations) <= greatest * |durations|
  {
    if durations != [] {
      var init, last := durations[..|durations| - 1], durations[|durations| - 1];
      assert last in durations && forall d | d in init :: d in durations;
      SumBounds(init, least, greatest);
      OneMoreTimes(least, |init|);
      OneMoreTimes(greatest, |init|);
      assert |durations| == |init| + 1;
    }
  }

  lemma QuotientBetween(a: int, b: int, least: int, greatest: int)
    requires b > 0 && least * b <= a <= greatest * b
    ensures least <= Quotient(a, b) <= greatest
  {
    QuotientBounds(a, b);
    hide Quotient;
    assert (greatest + 1) * b == greatest * b + b && (least - 1) * b == least * b - b;
  }

  /** With a sum that fits, the average lies between the smallest and the largest duration. */
  lemma AverageIsBetween(m: MethodStats, durations: seq<int>, least: int, greatest: int)
    requires MethodReported(m, durations) && FitsInt64(Sum(durations))
    requires forall d | d in durations :: least <= d <= greatest
    ensures least <= m.average <= greatest
  {
    SumBounds(durations, least, greatest);
    QuotientBetween(Sum(durations), |durations|, least, greatest);
  }

  /** Two requests of 2^63 - 1 nanoseconds are reported with an average of -1. */
  lemma OverflowLeavesTheBounds()
    ensures FitsInt64(MAX_INT64) && MethodReported(MethodStats(2, -1), [MAX_INT64, MAX_INT64])
  {
    var two := [MAX_INT64, MAX_INT64];
    assert two[..1] == [MAX_INT64] && two[..1][..0] == [];
    assert Sum(two[..1]) == MAX_INT64;
    assert Sum(two) == MAX_INT64 + MAX_INT64;
  }
}
