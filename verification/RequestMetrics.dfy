/** The in-flight gauge and the request counters under concurrent requests. */
module RequestMetrics {
  datatype Route = Route(verb: string, endpoint: string)

  datatype Labels = Labels(route: Route, status: int)

  datatype Outcome = Response(status: int) | Raised | Cancelled

  function StatusOf(outcome: Outcome): int {
    if outcome.Response? then outcome.status else 500
  }

  /** A labelled counter: label sets it has never seen read as zero. */
  type Counters<K> = map<K, nat>

  function Count<K>(c: Counters<K>, k: K): nat {
    if k in c then c[k] else 0
  }

  function Inc<K>(c: Counters<K>, k: K): Counters<K> {
    c[k := Count(c, k) + 1]
  }

  datatype Instruments = Instruments(inFlight: int, requests: Counters<Labels>, durations: Counters<Route>)

  function OnEnter(m: Instruments): Instruments {
    m.(inFlight := m.inFlight + 1)
  }

  function OnLeave(m: Instruments, route: Route, outcome: Outcome): Instruments {
    Instruments(m.inFlight - 1, Inc(m.requests, Labels(route, StatusOf(outcome))), Inc(m.durations, route))
  }

  class Registry {
    var inFlight: int
    var requests: Counters<Labels>
    var durations: Counters<Route>   // number of observations per route

    function View(): Instruments
      reads this
    {
      Instruments(inFlight, requests, durations)
    }

    constructor ()
      ensures View() == Instruments(0, map[], map[])
    {
      inFlight, requests, durations := 0, map[], map[];
    }

    /** `MetricsMiddleware.dispatch` before the call of the application ... */
    method Enter()
      modifies this
      ensures View() == OnEnter(old(View()))
      ensures inFlight + Total(requests) == old(inFlight + Total(requests)) + 1
    {
      inFlight := inFlight + 1;
    }

    /** ... and its `finally` block, however the call ended. */
    method Leave(route: Route, outcome: Outcome)
      modifies this
      ensures View() == OnLeave(old(View()), route, outcome)
      // what leaves the gauge arrives in one counter and one histogram, of the same route
      ensures inFlight + Total(requests) == old(inFlight + Total(requests))
      ensures forall r :: Count(durations, r) - RouteTotal(requests, r) ==
                          old(Count(durations, r) - RouteTotal(requests, r))
    {
      IncRaisesTotals(requests, Labels(route, StatusOf(outcome)), route);
      forall r ensures RouteTotal(Inc(requests, Labels(route, StatusOf(outcome))), r) ==
          RouteTotal(requests, r) + if route == r then 1 else 0 {
        IncRaisesTotals(requests, Labels(route, StatusOf(outcome)), r);
      }
      var statusCode := 500;
      if outcome.Response? {
        statusCode := outcome.status;
      }
      inFlight := inFlight - 1;
      requests := Inc(requests, Labels(route, statusCode));
      durations := Inc(durations, route);
    }

    /** Requests that come and go in any interleaving, seen by a fresh registry. */
    method Observe(events: seq<Event>)
      requires View() == START.m
      modifies this
      ensures View() == Run(START, events).m && Conserved(Run(START, events))
      ensures inFlight == |Run(START, events).open|
      ensures inFlight + Total(requests) == Run(START, events).arrivals
      ensures forall r :: Count(durations, r) == RouteTotal(requests, r)
    {
      var open: set<nat> := {};
      ghost var s := START;
      for i := 0 to |events|
        invariant s.m == View() && s.open == open
        invariant Run(s, events[i..]) == Run(START, events)
      {
        assert events[i..][0] == events[i] && events[i..][1..] == events[i + 1..];
        match events[i] {
          case Arrive(id) =>
            if id !in open {
              Enter();
              open := open + {id};
            }
          case Finish(id, route, outcome) =>
            if id in open {
              Leave(route, outcome);
              open := open - {id};
            }
        }
        s := Step(s, events[i]);
      }
      assert events[|events|..] == [];
      EveryRunIsConserved(events);
    }
  }

  // ----- interleavings --------------------------------------------------------------------

  datatype Event =
    | Arrive(id: nat)
    | Finish(id: nat, route: Route, outcome: Outcome)

  datatype Ended = Ended(route: Route, outcome: Outcome)

  /** `open`, `arrivals` and `finished` are the history that the instruments should reflect. */
  datatype State = State(m: Instruments, open: set<nat>, arrivals: nat, finished: seq<Ended>)

  const START := State(Instruments(0, map[], map[]), {}, 0, [])

  function Step(s: State, e: Event): State {
    match e
    case Arrive(id) =>
      if id in s.open then s else State(OnEnter(s.m), s.open + {id}, s.arrivals + 1, s.finished)
    case Finish(id, route, outcome) =>
      if id !in s.open then s
      else
        State(OnLeave(s.m, route, outcome), s.open - {id}, s.arrivals,
              s.finished + [Ended(route, outcome)])
  }

  /** A response counts under its own status; an exception and a cancellation count under 500. */
  predicate CountsUnder(e: Ended, labels: Labels) {
    e.route == labels.route &&
    match e.outcome
    case Response(status) => labels.status == status
    case Raised => labels.status == 500
    case Cancelled => labels.status == 500
  }

  function CountEnded(finished: seq<Ended>, labels: Labels): nat {
    if finished == [] then 0
    else
      var n := |finished| - 1;
      CountEnded(finished[..n], labels) + if CountsUnder(finished[n], labels) then 1 else 0
  }

  function CountOnRoute(finished: seq<Ended>, route: Route): nat {
    if finished == [] then 0
    else
      var n := |finished| - 1;
      CountOnRoute(finished[..n], route) + if finished[n].route == route then 1 else 0
  }

  function Run(s: State, events: seq<Event>): State
    decreases |events|
  {
    if events == [] then s else Run(Step(s, events[0]), events[1..])
  }

  ghost function Sum(c: Counters<Labels>, ks: set<Labels>): nat
    decreases |ks|
  {
    if ks == {} then 0
    else
      var k :| k in ks;
      Count(c, k) + Sum(c, ks - {k})
  }

  ghost function Total(c: Counters<Labels>): nat {
    Sum(c, c.Keys)
  }

  /** The counters of one route, over all statuses. */
  ghost function RouteTotal(c: Counters<Labels>, route: Route): nat {
    Sum(c, RouteKeys(c, route))
  }

  ghost function RouteKeys(c: Counters<Labels>, route: Route): set<Labels> {
    set k | k in c && k.route == route
  }

  lemma {:induction false} SumWithout(c: Counters<Labels>, ks: set<Labels>, k: Labels)
    requires k in ks
    ensures Sum(c, ks) == Count(c, k) + Sum(c, ks - {k})
    decreases |ks|
  {
    var first :| first in ks && Sum(c, ks) == Count(c, first) + Sum(c, ks - {first});
    if first != k {
      SumWithout(c, ks - {first}, k);
      SumWithout(c, ks - {k}, first);
      assert ks - {first} - {k} == ks - {k} - {first};
    }
  }

  lemma {:induction false} SumAfterInc(c: Counters<Labels>, ks: set<Labels>, k: Labels)
    ensures Sum(Inc(c, k), ks) == Sum(c, ks) + if k in ks then 1 else 0
    decreases |ks|
  {
    if ks != {} {
      var j :| j in ks;
      SumWithout(c, ks, j);
      SumWithout(Inc(c, k), ks, j);
      SumAfterInc(c, ks - {j}, k);
    }
  }

  lemma SumWithNew(c: Counters<Labels>, ks: set<Labels>, k: Labels)
    requires k !in c
    ensures Sum(c, ks + {k}) == Sum(c, ks)
  {
    if k in ks {
      assert ks + {k} == ks;
    } else {
      SumWithout(c, ks + {k}, k);
      assert ks + {k} - {k} == ks;
    }
  }

  lemma IncRaisesTotals(c: Counters<Labels>, k: Labels, route: Route)
    ensures Total(Inc(c, k)) == Total(c) + 1
    ensures RouteTotal(Inc(c, k), route) == RouteTotal(c, route) + if k.route == route then 1 else 0
  {
    assert Inc(c, k).Keys == c.Keys + {k};
    SumAfterInc(c, c.Keys + {k}, k);
    var mine := RouteKeys(Inc(c, k), route);
    SumAfterInc(c, mine, k);
    if k in c {
      assert c.Keys + {k} == c.Keys && mine == RouteKeys(c, route);
    } else {
      SumWithNew(c, c.Keys, k);
      SumWithNew(c, RouteKeys(c, route), k);
      assert mine == if k.route == route then RouteKeys(c, route) + {k} else RouteKeys(c, route);
    }
  }

  /** Gauge = requests entered and not finished; every counter = finished requests of its route that
      count under its status; gauge + all counters = arrivals; every duration count = finished
      requests of the route = its counters over status. */
  ghost predicate Conserved(s: State) {
    s.m.inFlight == |s.open| &&
    (forall k :: Count(s.m.requests, k) == CountEnded(s.finished, k)) &&
    (forall route :: Count(s.m.durations, route) == CountOnRoute(s.finished, route)) &&
    s.m.inFlight + Total(s.m.requests) == s.arrivals &&
    Total(s.m.requests) == |s.finished| &&
    (forall route :: Count(s.m.durations, route) == RouteTotal(s.m.requests, route))
  }

  lemma StepConserves(s: State, e: Event)
    requires Conserved(s)
    ensures Conserved(Step(s, e))
  {
    if e.Finish? && e.id in s.open {
      assert (s.finished + [Ended(e.route, e.outcome)])[..|s.finished|] == s.finished;
      var labels := Labels(e.route, StatusOf(e.outcome));
      IncRaisesTotals(s.m.requests, labels, e.route);
      forall route ensures Count(Inc(s.m.durations, e.route), route) == RouteTotal(Inc(s.m.requests, labels), route) {
        IncRaisesTotals(s.m.requests, labels, route);
      }
    }
  }

  /** Conservation in every interleaving of requests that end in a response, an exception or a
      cancellation. */
  lemma {:induction false} RunConserves(s: State, events: seq<Event>)
    requires Conserved(s)
    ensures Conserved(Run(s, events))
    decreases |events|
  {
    if events != [] {
      StepConserves(s, events[0]);
      RunConserves(Step(s, events[0]), events[1..]);
    }
  }

  /** ... and so from a fresh registry on; once all requests have ended the gauge is back at zero. */
  lemma EveryRunIsConserved(events: seq<Event>)
    ensures Conserved(Run(START, events))
    ensures Run(START, events).open == {} ==> Run(START, events).m.inFlight == 0
  {
    assert Sum(map[], {}) == 0;
    forall route ensures RouteTotal(START.m.requests, route) == 0 {
      assert RouteKeys(START.m.requests, route) == {};
    }
    RunConserves(START, events);
  }
}
