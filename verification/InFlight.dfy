/** The OpenTelemetry metrics of the interceptors: an in-flight gauge and three counters that any number of
    concurrent requests change one call at a time. */
module InFlight {
  import opened Values
  import opened MethodName

  /** The attributes of a request; kind is unary, or what StreamKind says */
  datatype Attrs = Attrs(rpc: string, service: string, kind: string)

  /** The attributes with the status code added */
  datatype Labels = Labels(attrs: Attrs, status: string)

  /** code is the text of the error's status code; nothing keeps an error from carrying the code OK */
  datatype Outcome = Succeeded | Erred(code: string)

  function StatusText(outcome: Outcome): string {
    match outcome
    case Succeeded => "OK"
    case Erred(code) => code
  }

  function StreamKind(clientStream: bool, serverStream: bool): string {
    if clientStream && serverStream then "bidi_stream"
    else if clientStream then "client_stream"
    else if serverStream then "server_stream"
    else "unknown"
  }

  lemma StreamKindsDiffer(c: bool, s: bool, c': bool, s': bool)
    ensures StreamKind(c, s) == StreamKind(c', s') <==> c == c' && s == s'
    ensures StreamKind(c, s) != "unary"
    ensures StreamKind(true, true) == "bidi_stream" && StreamKind(false, false) == "unknown"
    ensures StreamKind(true, false) == "client_stream" && StreamKind(false, true) == "server_stream"
  {
    assert "unknown"[2] == 'k' && "unary"[2] == 'a';
    assert "bidi_stream"[0] == 'b' && "client_stream"[0] == 'c' && "server_stream"[0] == 's' && "unknown"[0] == 'u';
  }

  datatype Meters = Meters(active: map<Attrs, int>, requests: map<Labels, int>,
                           durations: map<Labels, int>, errors: map<Labels, int>)

  const NO_METERS := Meters(map[], map[], map[], map[])

  function At<K>(counts: map<K, int>, key: K): int {
    if key in counts then counts[key] else 0
  }

  function Add<K>(counts: map<K, int>, key: K, n: int): map<K, int> {
    counts[key := At(counts, key) + n]
  }

  /** Where a request is in the interceptor; outcome is known once the handler has returned. */
  datatype Stage = Waiting | Handling | Returned | Counted | Timed | Reported | Finished

  datatype Thread = Thread(attrs: Attrs, stage: Stage, outcome: Outcome)

  function LabelsOf(th: Thread): Labels {
    Labels(th.attrs, StatusText(th.outcome))
  }

  /** One call of the metrics library, or the handler's return with the given outcome */
  function Step(m: Meters, th: Thread, outcome: Outcome): (Meters, Thread) {
    match th.stage
    case Waiting => (m.(active := Add(m.active, th.attrs, 1)), th.(stage := Handling))
    case Handling => (m, th.(stage := Returned, outcome := outcome))
    case Returned => (m.(requests := Add(m.requests, LabelsOf(th), 1)), th.(stage := Counted))
    case Counted => (m.(durations := Add(m.durations, LabelsOf(th), 1)), th.(stage := Timed))
    case Timed =>
      (if th.outcome.Erred? then m.(errors := Add(m.errors, LabelsOf(th), 1)) else m, th.(stage := Reported))
    case Reported => (m.(active := Add(m.active, th.attrs, -1)), th.(stage := Finished))
    case Finished => (m, th)
  }

  datatype State = State(meters: Meters, threads: seq<Thread>)

  datatype Tick = Tick(who: nat, outcome: Outcome)

  function Next(st: State, tick: Tick): State {
    if tick.who < |st.threads| then
      var (m, th) := Step(st.meters, st.threads[tick.who], tick.outcome);
      State(m, st.threads[tick.who := th])
    else st
  }

  function Exec(st: State, ticks: seq<Tick>): State {
    if ticks == [] then st else Next(Exec(st, ticks[..|ticks| - 1]), ticks[|ticks| - 1])
  }

  function Initial(requests: seq<Attrs>): State {
    State(NO_METERS, seq(|requests|, i requires 0 <= i < |requests| => Thread(requests[i], Waiting, Succeeded)))
  }

  // ---------- Counting threads ----------

  const STARTED: set<Stage> := {Handling, Returned, Counted, Timed, Reported, Finished}
  const IN_PROGRESS: set<Stage> := {Handling, Returned, Counted, Timed, Reported}
  const PAST_HANDLER: set<Stage> := {Returned, Counted, Timed, Reported, Finished}
  const PAST_COUNTER: set<Stage> := {Counted, Timed, Reported, Finished}
  const PAST_DURATION: set<Stage> := {Timed, Reported, Finished}
  const PAST_ERRORS: set<Stage> := {Reported, Finished}

  /** A property of threads: attributes, or attributes with certain status codes, and how far the thread is */
  datatype Kind =
    | Of(attrs: Attrs, stages: set<Stage>)
    | With(labels: Labels, stages: set<Stage>)
    | Erring(labels: Labels, stages: set<Stage>)
    | Among(attrs: Attrs, statuses: seq<string>, stages: set<Stage>)

  predicate Is(th: Thread, k: Kind) {
    && th.stage in k.stages
    && match k
       case Of(attrs, _) => th.attrs == attrs
       case With(labels, _) => LabelsOf(th) == labels
       case Erring(labels, _) => LabelsOf(th) == labels && th.outcome.Erred?
       case Among(attrs, statuses, _) => th.attrs == attrs && StatusText(th.outcome) in statuses
  }

  function One(th: Thread, k: Kind): nat {
    if Is(th, k) then 1 else 0
  }

  function Number(threads: seq<Thread>, k: Kind): nat {
    if threads == [] then 0
    else Number(threads[..|threads| - 1], k) + One(threads[|threads| - 1], k)
  }

  lemma {:induction false} NumberUpdates(threads: seq<Thread>, i: nat, th: Thread, k: Kind)
    requires i < |threads|
    ensures Number(threads[i := th], k) == Number(threads, k) - One(threads[i], k) + One(th, k)
  {
    hide One;
    var init := threads[..|threads| - 1];
    if i == |threads| - 1 {
      assert threads[i := th][..|threads| - 1] == init;
    } else {
      assert threads[i := th][..|threads| - 1] == init[i := th];
      NumberUpdates(init, i, th, k);
    }
  }

  lemma {:induction false} NumberGrows(threads: seq<Thread>, k: Kind, k': Kind)
    requires forall th | th in threads :: Is(th, k) ==> Is(th, k')
    ensures Number(threads, k) <= Number(threads, k')
  {
    hide Is;
    if threads != [] {
      var init := threads[..|threads| - 1];
      assert threads[|threads| - 1] in threads && forall th | th in init :: th in threads;
      NumberGrows(init, k, k');
    }
  }

  lemma {:induction false} NumberOfNone(threads: seq<Thread>, k: Kind)
    requires forall th | th in threads :: !Is(th, k)
    ensures Number(threads, k) == 0
  {
    hide Is;
    if threads != [] {
      var init := threads[..|threads| - 1];
      assert threads[|threads| - 1] in threads && forall th | th in init :: th in threads;
      NumberOfNone(init, k);
    }
  }

  // ---------- What the meters show ----------

  /** Every instrument shows how many requests have passed its call; the gauge, how many are in progress. */
  ghost predicate Exact(st: State) {
    && (forall a: Attrs :: ActiveExact(st, a))
    && (forall l: Labels :: CountersExact(st, l))
  }

  predicate ActiveExact(st: State, a: Attrs) {
    At(st.meters.active, a) == Number(st.threads, Of(a, IN_PROGRESS))
  }

  predicate CountersExact(st: State, l: Labels) {
    && At(st.meters.requests, l) == Number(st.threads, With(l, PAST_COUNTER))
    && At(st.meters.durations, l) == Number(st.threads, With(l, PAST_DURATION))
    && At(st.meters.errors, l) == Number(st.threads, Erring(l, PAST_ERRORS))
  }

  /** What one step adds to an instrument is what it adds to the number of threads past its call. */
  lemma GaugeMoves(m: Meters, th: Thread, outcome: Outcome, a: Attrs)
    ensures var (m', th') := Step(m, th, outcome);
            At(m'.active, a) == At(m.active, a) - One(th, Of(a, IN_PROGRESS)) + One(th', Of(a, IN_PROGRESS))
  {
    hide StatusText;
  }

  lemma RequestsMove(m: Meters, th: Thread, outcome: Outcome, l: Labels)
    ensures var (m', th') := Step(m, th, outcome);
            At(m'.requests, l) == At(m.requests, l) - One(th, With(l, PAST_COUNTER)) + One(th', With(l, PAST_COUNTER))
  {
    hide StatusText;
  }

  lemma DurationsMove(m: Meters, th: Thread, outcome: Outcome, l: Labels)
    ensures var (m', th') := Step(m, th, outcome);
            At(m'.durations, l)
            == At(m.durations, l) - One(th, With(l, PAST_DURATION)) + One(th', With(l, PAST_DURATION))
  {
    hide StatusText;
  }

  lemma ErrorsMove(m: Meters, th: Thread, outcome: Outcome, l: Labels)
    ensures var (m', th') := Step(m, th, outcome);
            At(m'.errors, l) == At(m.errors, l) - One(th, Erring(l, PAST_ERRORS)) + One(th', Erring(l, PAST_ERRORS))
  {
    hide StatusText;
  }

  lemma NextExact(st: State, tick: Tick)
    requires Exact(st)
    ensures Exact(Next(st, tick))
  {
    hide Step, At, Number, One;
    if tick.who < |st.threads| {
      var i, th, st' := tick.who, st.threads[tick.who], Next(st, tick);
      var th' := Step(st.meters, th, tick.outcome).1;
      assert st'.threads == st.threads[i := th'];
      forall a: Attrs ensures ActiveExact(st', a) {
        assert ActiveExact(st, a);
        GaugeMoves(st.meters, th, tick.outcome, a);
        NumberUpdates(st.threads, i, th', Of(a, IN_PROGRESS));
      }
      forall l: Labels ensures CountersExact(st', l) {
        assert CountersExact(st, l);
        RequestsMove(st.meters, th, tick.outcome, l);
        DurationsMove(st.meters, th, tick.outcome, l);
        ErrorsMove(st.meters, th, tick.outcome, l);
        NumberUpdates(st.threads, i, th', With(l, PAST_COUNTER));
        NumberUpdates(st.threads, i, th', With(l, PAST_DURATION));
        NumberUpdates(st.threads, i, th', Erring(l, PAST_ERRORS));
      }
    }
  }

  lemma InitialExact(requests: seq<Attrs>)
    ensures Exact(Initial(requests))
  {
    var threads := Initial(requests).threads;
    assert forall th | th in threads :: th.stage == Waiting;
    forall a: Attrs ensures Number(threads, Of(a, IN_PROGRESS)) == 0 {
      NumberOfNone(threads, Of(a, IN_PROGRESS));
    }
    forall l: Labels ensures CountersExact(Initial(requests), l) {
      NumberOfNone(threads, With(l, PAST_COUNTER));
      NumberOfNone(threads, With(l, PAST_DURATION));
      NumberOfNone(threads, Erring(l, PAST_ERRORS));
    }
  }

  /** In every reachable state of any interleaving, the gauge of an attribute set is the number of its
      requests in progress, and the counters of a status set are the requests that have passed them. */
  lemma {:induction false} MetersAreExact(requests: seq<Attrs>, ticks: seq<Tick>)
    ensures Exact(Exec(Initial(requests), ticks))
    decreases |ticks|
  {
    if ticks == [] {
      InitialExact(requests);
    } else {
      MetersAreExact(requests, ticks[..|ticks| - 1]);
      hide Exact, Next;
      NextExact(Exec(Initial(requests), ticks[..|ticks| - 1]), ticks[|ticks| - 1]);
    }
  }

  /** In every reachable state the errors of a status set are at most its durations, those at most its
      requests, and the requests lie between those finished and those whose handler has returned. */
  lemma CountersAreOrdered(requests: seq<Attrs>, ticks: seq<Tick>, l: Labels)
    ensures var st := Exec(Initial(requests), ticks);
            && 0 <= At(st.meters.errors, l) <= At(st.meters.durations, l) <= At(st.meters.requests, l)
            && Number(st.threads, With(l, {Finished})) <= At(st.meters.requests, l)
               <= Number(st.threads, With(l, PAST_HANDLER))
  {
    MetersAreExact(requests, ticks);
    hide Exec, Initial, At, Number, LabelsOf;
    var st := Exec(Initial(requests), ticks);
    assert CountersExact(st, l);
    NumberGrows(st.threads, Erring(l, PAST_ERRORS), With(l, PAST_DURATION));
    NumberGrows(st.threads, With(l, PAST_DURATION), With(l, PAST_COUNTER));
    NumberGrows(st.threads, With(l, {Finished}), With(l, PAST_COUNTER));
    NumberGrows(st.threads, With(l, PAST_COUNTER), With(l, PAST_HANDLER));
  }

  // ---------- All status codes of one attribute set together ----------

  function TotalRequests(m: Meters, attrs: Attrs, statuses: seq<string>): int {
    if statuses == [] then 0
    else TotalRequests(m, attrs, statuses[1..]) + At(m.requests, Labels(attrs, statuses[0]))
  }

  lemma {:induction false} NumberSplits(threads: seq<Thread>, attrs: Attrs, statuses: seq<string>)
    requires statuses != [] && statuses[0] !in statuses[1..]
    ensures Number(threads, Among(attrs, statuses, PAST_COUNTER))
         == Number(threads, With(Labels(attrs, statuses[0]), PAST_COUNTER))
            + Number(threads, Among(attrs, statuses[1..], PAST_COUNTER))
  {
    hide StatusText;
    if threads != [] {
      NumberSplits(threads[..|threads| - 1], attrs, statuses);
      var th := threads[|threads| - 1];
      assert statuses == [statuses[0]] + statuses[1..];
      assert One(th, Among(attrs, statuses, PAST_COUNTER))
          == One(th, With(Labels(attrs, statuses[0]), PAST_COUNTER))
             + One(th, Among(attrs, statuses[1..], PAST_COUNTER));
    }
  }

  lemma {:induction false} TotalIsTheirNumber(st: State, attrs: Attrs, statuses: seq<string>)
    requires Exact(st) && NoRepeats(statuses)
    ensures TotalRequests(st.meters, attrs, statuses) == Number(st.threads, Among(attrs, statuses, PAST_COUNTER))
  {
    if statuses == [] {
      NumberOfNone(st.threads, Among(attrs, statuses, PAST_COUNTER));
    } else {
      TotalIsTheirNumber(st, attrs, statuses[1..]);
      hide At, Number;
      assert CountersExact(st, Labels(attrs, statuses[0]));
      NumberSplits(st.threads, attrs, statuses);
    }
  }

  /** Summed over all status codes that have been counted, the request counter of an attribute set lies
      between its finished requests and its started ones. */
  lemma TotalIsBetween(requests: seq<Attrs>, ticks: seq<Tick>, attrs: Attrs, statuses: seq<string>)
    requires NoRepeats(statuses)
    requires forall th | th in Exec(Initial(requests), ticks).threads ::
               th.stage in PAST_COUNTER ==> StatusText(th.outcome) in statuses
    ensures var st := Exec(Initial(requests), ticks);
            Number(st.threads, Of(attrs, {Finished})) <= TotalRequests(st.meters, attrs, statuses)
            <= Number(st.threads, Of(attrs, STARTED))
  {
    MetersAreExact(requests, ticks);
    hide Exec, Initial, Number, Exact, StatusText;
    var st := Exec(Initial(requests), ticks);
    TotalIsTheirNumber(st, attrs, statuses);
    NumberGrows(st.threads, Of(attrs, {Finished}), Among(attrs, statuses, PAST_COUNTER));
    NumberGrows(st.threads, Among(attrs, statuses, PAST_COUNTER), Of(attrs, STARTED));
  }

  /** When no request is in progress the gauge shows nothing anywhere, and the counters count exactly the
      finished requests and, of these, the failed ones. */
  lemma QuietMeters(requests: seq<Attrs>, ticks: seq<Tick>, l: Labels)
    requires forall th | th in Exec(Initial(requests), ticks).threads :: th.stage !in IN_PROGRESS
    ensures var st := Exec(Initial(requests), ticks);
            && At(st.meters.active, l.attrs) == 0
            && At(st.meters.requests, l) == At(st.meters.durations, l) == Number(st.threads, With(l, {Finished}))
            && At(st.meters.errors, l) == Number(st.threads, Erring(l, {Finished}))
  {
    MetersAreExact(requests, ticks);
    hide Exec, Initial, Number, At, LabelsOf;
    var st := Exec(Initial(requests), ticks);
    assert ActiveExact(st, l.attrs) && CountersExact(st, l);
    NumberOfNone(st.threads, Of(l.attrs, IN_PROGRESS));
    NumberGrows(st.threads, With(l, PAST_COUNTER), With(l, {Finished}));
    NumberGrows(st.threads, With(l, {Finished}), With(l, PAST_DURATION));
    NumberGrows(st.threads, With(l, PAST_DURATION), With(l, PAST_COUNTER));
    NumberGrows(st.threads, Erring(l, PAST_ERRORS), Erring(l, {Finished}));
    NumberGrows(st.threads, Erring(l, {Finished}), Erring(l, PAST_ERRORS));
  }

  // ---------- The interceptor itself ----------

  /** The steps of one request with nothing running beside it */
  function Alone(m: Meters, attrs: Attrs, outcome: Outcome, steps: nat): (Meters, Thread) {
    if steps == 0 then (m, Thread(attrs, Waiting, Succeeded))
    else
      var (m', th) := Alone(m, attrs, outcome, steps - 1);
      Step(m', th, outcome)
  }

  /** One request leaves the gauge where it was and counts once, under its own labels only: a success under OK, a
      failure under the code of its error. */
  lemma AloneCountsOnce(m: Meters, attrs: Attrs, outcome: Outcome, a: Attrs, l: Labels)
    ensures var (m', th) := Alone(m, attrs, outcome, 6);
            var status := match outcome case Succeeded => "OK" case Erred(code) => code;
            var mine := if l == Labels(attrs, status) then 1 else 0;
            && th == Thread(attrs, Finished, outcome)
            && At(m'.active, a) == At(m.active, a)
            && At(m'.requests, l) == At(m.requests, l) + mine
            && At(m'.durations, l) == At(m.durations, l) + mine
            && At(m'.errors, l) == At(m.errors, l) + if outcome.Erred? then mine else 0
  {
    AloneInFull(m, attrs, outcome);
    hide Alone;
  }

  lemma AloneInFull(m: Meters, attrs: Attrs, outcome: Outcome)
    ensures var labels := Labels(attrs, StatusText(outcome));
            Alone(m, attrs, outcome, 6) ==
            (Meters(Add(Add(m.active, attrs, 1), attrs, -1), Add(m.requests, labels, 1), Add(m.durations, labels, 1),
                    if outcome.Erred? then Add(m.errors, labels, 1) else m.errors),
             Thread(attrs, Finished, outcome))
  {
    hide Add, StatusText;
    var started := m.(active := Add(m.active, attrs, 1));
    assert Alone(m, attrs, outcome, 1) == (started, Thread(attrs, Handling, Succeeded));
    assert Alone(m, attrs, outcome, 2) == (started, Thread(attrs, Returned, outcome));
    var counted := started.(requests := Add(m.requests, Labels(attrs, StatusText(outcome)), 1));
    assert Alone(m, attrs, outcome, 3) == (counted, Thread(attrs, Counted, outcome));
    assert Alone(m, attrs, outcome, 4).1 == Thread(attrs, Timed, outcome);
    assert Alone(m, attrs, outcome, 5).1 == Thread(attrs, Reported, outcome);
  }

  class OtelMetrics {
    var activeRequests: map<Attrs, int>
    var requestCounter: map<Labels, int>
    var requestDuration: map<Labels, int>
    var errorCounter: map<Labels, int>

    ghost function Shown(): Meters
      reads this
    {
      Meters(activeRequests, requestCounter, requestDuration, errorCounter)
    }

    constructor ()
      ensures Shown() == NO_METERS
    {
      activeRequests, requestCounter, requestDuration, errorCounter := map[], map[], map[], map[];
    }

    /** A request around a handler that returns with outcome, undisturbed: the six steps of the machine */
    method Intercept(fullMethod: string, kind: string, outcome: Outcome) returns (attrs: Attrs)
      modifies this
      ensures attrs.rpc == fullMethod && attrs.kind == kind
      ensures IsFirstPart(WithoutLeadingSlash(fullMethod), attrs.service)
      ensures Shown() == Alone(old(Shown()), attrs, outcome, 6).0
    {
      hide Add, Alone, StatusText;
      var service := ExtractService(fullMethod);
      attrs := Attrs(fullMethod, service, kind);
      AloneInFull(Shown(), attrs, outcome);
      activeRequests := Add(activeRequests, attrs, 1);
      var labels := Labels(attrs, StatusText(outcome));
      requestCounter := Add(requestCounter, labels, 1);
      requestDuration := Add(requestDuration, labels, 1);
      if outcome.Erred? {
        errorCounter := Add(errorCounter, labels, 1);
      }
      activeRequests := Add(activeRequests, attrs, -1);
    }
  }
}
