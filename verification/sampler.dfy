/** The sampling cycle (w1_therm_exporter.go, lines 47 to 103): each listed sensor's
    outcome applied in order to the published gauges and the registry of last-seen
    times, then the staleness sweep. */
module Sampler {
  import opened Wrappers
  import opened Text
  import opened Payload
  import opened Strconv

  /** A sensor whose last successful reading is more than this many seconds old is dropped. */
  const StaleAfter: int := 300

  /** The sampler's two maps, both keyed by sensor id: `gauge` holds the published
      temperatures in tenths of a degree (the gauge vector's labels), `registry` the
      Unix second of each sensor's last successful reading (`currentSensors`). */
  datatype State = State(gauge: map<string, int>, registry: map<string, int>)

  /** Both maps start empty when the process starts. */
  const Initial: State := State(map[], map[])

  /** One directory entry met during a cycle: the sensor id, the text of its
      `w1_slave` file (None when reading the file failed), and the clock reading in
      Unix seconds taken when the sensor's reading is stored. */
  datatype Sample = Sample(id: string, payload: Option<string>, at: int)

  /** What one directory entry means for the maps: the sensor, the outcome of its
      payload, and the clock reading. */
  datatype Event = Event(id: string, outcome: Outcome, at: int)

  /** A failed read is skipped like an unusable value (both `continue` without
      touching the maps); a payload is parsed. */
  function Observe(s: Sample): (e: Event)
    ensures e.id == s.id && e.at == s.at
    ensures s.payload.None? ==> e.outcome == Skip
    ensures s.payload.Some? ==> (e.outcome == ChecksumFail <==> !Contains(s.payload.value, ChecksumToken))
  {
    match s.payload
    case None => Event(s.id, Skip, s.at)
    case Some(p) => Event(s.id, Parse(p), s.at)
  }

  /** The events of a directory listing, one per entry, in listing order. */
  function Events(ss: seq<Sample>): (es: seq<Event>)
    ensures |es| == |ss|
    ensures forall i :: 0 <= i < |ss| ==> es[i] == Observe(ss[i])
    decreases |ss|
  {
    if |ss| == 0 then [] else Events(ss[..|ss| - 1]) + [Observe(ss[|ss| - 1])]
  }

  /** Every published gauge has a registry entry, so the staleness sweep can reach it. */
  predicate Inv(st: State)
  {
    st.gauge.Keys <= st.registry.Keys
  }

  /** `m1` and `m2` agree on key `k`: both lack it or both map it to the same value. */
  predicate SameAt(m1: map<string, int>, m2: map<string, int>, k: string)
  {
    (k in m1 <==> k in m2) && (k in m1 ==> m1[k] == m2[k])
  }

  /** Both maps of `a` and `b` agree on key `k`. */
  predicate AgreeAt(a: State, b: State, k: string)
  {
    SameAt(a.gauge, b.gauge, k) && SameAt(a.registry, b.registry, k)
  }

  /** One iteration of the per-sensor loop: a skip changes nothing, a missing
      checksum token deletes only the gauge label, and a reading sets the gauge and
      stamps the registry. No other sensor is touched, the registry never shrinks,
      and a state meeting `Inv` still meets it. */
  function Apply(st: State, e: Event): (r: State)
    ensures forall k :: k != e.id ==> AgreeAt(r, st, k)
    ensures st.registry.Keys <= r.registry.Keys <= st.registry.Keys + {e.id}
    ensures Inv(st) ==> Inv(r)
  {
    match e.outcome
    case ChecksumFail => st.(gauge := st.gauge - {e.id})
    case Skip => st
    case Reading(d) => State(st.gauge[e.id := d], st.registry[e.id := e.at])
  }

  /** A sensor whose file cannot be read keeps whatever it had. */
  lemma ReadFailureKeepsState(st: State, s: Sample)
    requires s.payload.None?
    ensures Apply(st, Observe(s)) == st
  {
  }

  /** A payload without the checksum token removes the sensor's gauge, and leaves its
      registry entry and every other sensor as they were. */
  lemma ChecksumFailureDropsGauge(st: State, s: Sample)
    requires s.payload.Some? && !Contains(s.payload.value, ChecksumToken)
    ensures s.id !in Apply(st, Observe(s)).gauge
    ensures Apply(st, Observe(s)).registry == st.registry
    ensures forall k :: k != s.id ==> SameAt(Apply(st, Observe(s)).gauge, st.gauge, k)
  {
  }

  /** A payload with the checksum token but no value marker changes nothing. */
  lemma MissingMarkerKeepsState(st: State, s: Sample)
    requires s.payload.Some?
    requires Contains(s.payload.value, ChecksumToken) && !Contains(s.payload.value, ValueMarker)
    ensures Apply(st, Observe(s)) == st
  {
  }

  /** A value field that `Atoi` rejects once layout is stripped (a second marker,
      a foreign character, an empty field, an overflow) changes nothing. */
  lemma UnparsableValueKeepsState(st: State, s: Sample)
    requires s.payload.Some? && Contains(s.payload.value, ChecksumToken)
    requires ValueField(s.payload.value).Some?
    requires Atoi(Sanitize(ValueField(s.payload.value).value)).None?
    ensures Apply(st, Observe(s)) == st
  {
  }

  /** A reading publishes its value and stamps the registry with the clock reading;
      nothing else changes. */
  lemma ReadingPublishes(st: State, e: Event)
    requires e.outcome.Reading?
    ensures Get(Apply(st, e).gauge, e.id) == Some(e.outcome.decidegrees)
    ensures Get(Apply(st, e).registry, e.id) == Some(e.at)
    ensures forall k :: k != e.id ==> AgreeAt(Apply(st, e), st, k)
  {
  }

  /** Applying the same outcome to the same sensor twice leaves what the second
      application alone leaves: the same gauge value, and the later clock reading. */
  lemma ApplyAbsorbs(st: State, e1: Event, e2: Event)
    requires e1.id == e2.id && e1.outcome == e2.outcome
    ensures Apply(Apply(st, e1), e2) == Apply(st, e2)
  {
    var id := e1.id;
    match e1.outcome
    case ChecksumFail =>
      assert st.gauge - {id} - {id} == st.gauge - {id};
    case Skip =>
    case Reading(d) =>
      UpdateTwice(st.gauge, id, d, d);
      UpdateTwice(st.registry, id, e1.at, e2.at);
  }

  lemma UpdateTwice(m: map<string, int>, k: string, a: int, b: int)
    ensures m[k := a][k := b] == m[k := b]
  {
  }

  /** The registry can outlive the gauge: after a reading and then a checksum failure,
      the sensor is still registered but no longer published. So only one inclusion
      between the two key sets holds. */
  lemma RegistryOutlivesGauge(st: State, good: Event, bad: Event)
    requires good.outcome.Reading?
    requires bad.id == good.id && bad.outcome == ChecksumFail
    ensures good.id in Apply(Apply(st, good), bad).registry
    ensures good.id !in Apply(Apply(st, good), bad).gauge
  {
  }

  /** An event's effect on sensor `k` depends only on what the state holds for `k`. */
  lemma ApplyLocal(a: State, b: State, e: Event, k: string)
    requires AgreeAt(a, b, k)
    ensures AgreeAt(Apply(a, e), Apply(b, e), k)
  {
  }

  /** The sensor ids a sequence of events mentions. */
  function Ids(es: seq<Event>): (ids: set<string>)
    ensures forall i :: 0 <= i < |es| ==> es[i].id in ids
    decreases |es|
  {
    if |es| == 0 then {} else Ids(es[..|es| - 1]) + {es[|es| - 1].id}
  }

  /** The per-sensor loop over one directory listing, in listing order. */
  function ApplyAll(st: State, es: seq<Event>): (r: State)
    ensures forall k :: k !in Ids(es) ==> AgreeAt(r, st, k)
    ensures st.registry.Keys <= r.registry.Keys
    ensures Inv(st) ==> Inv(r)
    decreases |es|
  {
    if |es| == 0 then st else Apply(ApplyAll(st, es[..|es| - 1]), es[|es| - 1])
  }

  /** Processing a listing in two pieces is processing it whole. */
  lemma {:induction false} ApplyAllConcat(st: State, a: seq<Event>, b: seq<Event>)
    ensures ApplyAll(st, a + b) == ApplyAll(ApplyAll(st, a), b)
    decreases |b|
  {
    if |b| == 0 {
      assert a + b == a;
    } else {
      assert (a + b)[..|a + b| - 1] == a + b[..|b| - 1];
      ApplyAllConcat(st, a, b[..|b| - 1]);
    }
  }

  /** The events of sensor `k`, in their order. */
  function EventsOf(es: seq<Event>, k: string): seq<Event>
  {
    if |es| == 0 then []
    else EventsOf(es[..|es| - 1], k) + (if es[|es| - 1].id == k then [es[|es| - 1]] else [])
  }

  /** Sensors do not interfere: what a cycle's reads leave for sensor `k` depends only
      on the events of `k`. */
  lemma {:induction false} ApplyAllPerSensor(st: State, es: seq<Event>, k: string)
    ensures AgreeAt(ApplyAll(st, es), ApplyAll(st, EventsOf(es, k)), k)
    decreases |es|
  {
    if |es| > 0 {
      var init, last := es[..|es| - 1], es[|es| - 1];
      ApplyAllPerSensor(st, init, k);
      if last.id == k {
        var sub := EventsOf(init, k) + [last];
        assert sub[..|sub| - 1] == EventsOf(init, k);
        ApplyLocal(ApplyAll(st, init), ApplyAll(st, EventsOf(init, k)), last, k);
      } else {
        assert EventsOf(es, k) == EventsOf(init, k);
      }
    }
  }

  /** The last reading of a sensor in a listing, with nothing about the sensor after
      it, decides its gauge and registry entry after the per-sensor loop. */
  lemma LastReadingWins(st: State, pre: seq<Event>, e: Event, post: seq<Event>)
    requires e.outcome.Reading?
    requires e.id !in Ids(post)
    ensures Get(ApplyAll(st, pre + [e] + post).gauge, e.id) == Some(e.outcome.decidegrees)
    ensures Get(ApplyAll(st, pre + [e] + post).registry, e.id) == Some(e.at)
  {
    ApplyAllConcat(st, pre + [e], post);
    var mid := pre + [e];
    assert mid[..|mid| - 1] == pre;
  }

  /** A registry entry older than the threshold: `timestamp + 300 < now`. */
  predicate Stale(timestamp: int, now: int)
  {
    timestamp + StaleAfter < now
  }

  /** The staleness sweep: every sensor whose registry time is stale loses both its
      gauge and its registry entry; all other entries stay as they were. */
  function Sweep(st: State, now: int): (r: State)
    ensures forall k :: k in r.registry <==> k in st.registry && !Stale(st.registry[k], now)
    ensures forall k :: k in r.gauge <==> k in st.gauge && !(k in st.registry && Stale(st.registry[k], now))
    ensures forall k :: k in r.registry ==> r.registry[k] == st.registry[k]
    ensures forall k :: k in r.gauge ==> r.gauge[k] == st.gauge[k]
    ensures forall k :: k in r.registry ==> now - StaleAfter <= r.registry[k]
    ensures Inv(st) ==> Inv(r)
  {
    var stale := set k | k in st.registry && Stale(st.registry[k], now);
    State(st.gauge - stale, st.registry - stale)
  }

  /** The sweep as the source runs it: walk the registry in whatever order the map
      yields its keys, deleting each stale entry from both maps as it is met. The
      result is the same as removing all stale keys at once, whatever the order. */
  method SweepInPlace(st: State, now: int) returns (r: State)
    ensures r == Sweep(st, now)
  {
    var gauge := st.gauge;
    var registry := st.registry;
    var pending := st.registry.Keys;
    ghost var stale := set k | k in st.registry && Stale(st.registry[k], now);
    while pending != {}
      invariant pending <= st.registry.Keys
      invariant registry == st.registry - (stale - pending)
      invariant gauge == st.gauge - (stale - pending)
      decreases pending
    {
      var name :| name in pending;
      var timestamp := registry[name];
      if timestamp + StaleAfter < now {
        gauge := gauge - {name};
        registry := registry - {name};
      }
      pending := pending - {name};
    }
    r := State(gauge, registry);
  }

  /** A sweep with nothing stale leaves the state as it was. */
  lemma SweepKeepsFresh(st: State, now: int)
    requires forall k :: k in st.registry ==> !Stale(st.registry[k], now)
    ensures Sweep(st, now) == st
  {
    var stale := set k | k in st.registry && Stale(st.registry[k], now);
    assert stale == {};
    assert st.gauge - stale == st.gauge;
    assert st.registry - stale == st.registry;
  }

  /** An entry exactly 300 seconds old is kept; one 301 seconds old is dropped. */
  lemma SweepBoundary(st: State, now: int, k: string)
    requires k in st.registry && k in st.gauge
    ensures st.registry[k] == now - 300 ==> k in Sweep(st, now).registry && k in Sweep(st, now).gauge
    ensures st.registry[k] == now - 301 ==> k !in Sweep(st, now).registry && k !in Sweep(st, now).gauge
  {
  }

  /** One full iteration of the sampling loop: every listed sensor in order, then the sweep. */
  function Cycle(st: State, es: seq<Event>, now: int): (r: State)
    ensures Inv(st) ==> Inv(r)
    ensures forall k :: k in r.registry ==> now - StaleAfter <= r.registry[k]
  {
    Sweep(ApplyAll(st, es), now)
  }

  /** A sensor read successfully in a cycle, with nothing later about it in the same
      listing, is published with that value after the cycle, even if it had been
      stale before: the sweep comes after the reads. */
  lemma FreshReadingSurvivesCycle(st: State, pre: seq<Event>, e: Event, post: seq<Event>, now: int)
    requires e.outcome.Reading?
    requires e.id !in Ids(post)
    requires now - StaleAfter <= e.at
    ensures Get(Cycle(st, pre + [e] + post, now).gauge, e.id) == Some(e.outcome.decidegrees)
    ensures Get(Cycle(st, pre + [e] + post, now).registry, e.id) == Some(e.at)
  {
    LastReadingWins(st, pre, e, post);
  }

  /** A sensor not listed in a cycle and last seen more than 300 seconds before the sweep disappears. */
  lemma SilentSensorExpires(st: State, es: seq<Event>, now: int, k: string)
    requires k !in Ids(es) && k in st.registry && Stale(st.registry[k], now)
    ensures k !in Cycle(st, es, now).gauge && k !in Cycle(st, es, now).registry
  {
  }

  /** One iteration's input: the directory listing with each file's contents, and
      the clock reading at the sweep. */
  datatype Round = Round(samples: seq<Sample>, now: int)

  /** The sampling loop driven for a number of iterations. After at least one
      iteration, no registry entry is older than 300 seconds at the last sweep. */
  function Run(st: State, rounds: seq<Round>): (r: State)
    ensures |rounds| > 0 ==> forall k :: k in r.registry ==> rounds[|rounds| - 1].now - StaleAfter <= r.registry[k]
    decreases |rounds|
  {
    if |rounds| == 0 then st
    else
      var last := rounds[|rounds| - 1];
      Cycle(Run(st, rounds[..|rounds| - 1]), Events(last.samples), last.now)
  }

  /** From a state meeting `Inv`, such as the empty start, every published gauge has
      a registry entry after any number of cycles. */
  lemma {:induction false} RunKeepsInv(st: State, rounds: seq<Round>)
    requires Inv(st)
    ensures Inv(Run(st, rounds))
    decreases |rounds|
  {
    if |rounds| > 0 {
      RunKeepsInv(st, rounds[..|rounds| - 1]);
    }
  }

  /** Two cycles reading the same outcome for a sensor publish the same value, and
      the registry holds the later clock reading. */
  lemma RepeatedReadingStable(st: State, e1: Event, e2: Event, now1: int, now2: int)
    requires e1.id == e2.id && e1.outcome == e2.outcome && e1.outcome.Reading?
    requires now1 - StaleAfter <= e1.at && now2 - StaleAfter <= e2.at
    ensures Get(Cycle(st, [e1], now1).gauge, e1.id) == Some(e1.outcome.decidegrees)
    ensures Get(Cycle(Cycle(st, [e1], now1), [e2], now2).gauge, e1.id) == Some(e1.outcome.decidegrees)
    ensures Get(Cycle(Cycle(st, [e1], now1), [e2], now2).registry, e1.id) == Some(e2.at)
  {
    FreshReadingSurvivesCycle(st, [], e1, [], now1);
    FreshReadingSurvivesCycle(Cycle(st, [e1], now1), [], e2, [], now2);
  }
}
