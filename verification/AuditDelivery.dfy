/**
 * runtime.write of audit/context.go and the background deliveries it starts, as a
 * transition system over the events of any number of requests.
 */
module AuditDelivery {
  import opened Wrappers
  import opened AuditEvent
  import opened AuditSink

  const MAX_CONCURRENT := 64

  /** One delivery goroutine: the replies it has seen, the time it has slept, and its result once it has one. */
  datatype Delivery<E> = Delivery(event: E, attempts: nat, slept: nat, result: Option<bool>)

  /** The semaphore, the goroutines that hold its slots, and what became of every event handed to write. */
  datatype State<E> = State(
    slots: nat,
    inFlight: seq<Delivery<E>>,
    attempted: multiset<E>,
    delivered: multiset<E>,
    failed: multiset<E>,
    dropped: multiset<E>)

  ghost function Initial<E>(): State<E> {
    State(0, [], multiset{}, multiset{}, multiset{}, multiset{})
  }

  datatype Step<E> =
    | Write(event: E)
    | Answer(k: nat, reply: Reply)
    | Fail(k: nat)
    | Release(k: nat)

  /** One attempt of the retry loop: the back-off before it, then core's reply. */
  function Attempted<E>(d: Delivery<E>, reply: Reply): Delivery<E> {
    var slept := d.slept + d.attempts * BACKOFF_MS;
    var attempts := d.attempts + 1;
    var result :=
      if Succeeds(reply) then Some(true)
      else if !Retryable(reply) || attempts == MAX_ATTEMPTS then Some(false)
      else None;
    Delivery(d.event, attempts, slept, result)
  }

  /** The event cannot be marshalled, or no request can be built from it. */
  function GivenUp<E>(d: Delivery<E>): Delivery<E> {
    d.(result := Some(false))
  }

  predicate Enabled<E>(s: State<E>, step: Step<E>) {
    match step
    case Write(_) => true
    case Fail(k) => k < |s.inFlight| && s.inFlight[k].result.None? && s.inFlight[k].attempts == 0
    case Answer(k, _) => k < |s.inFlight| && s.inFlight[k].result.None?
    case Release(k) => k < |s.inFlight| && s.inFlight[k].result.Some? && s.slots > 0
  }

  ghost function Next<E>(s: State<E>, step: Step<E>): State<E>
    requires Enabled(s, step)
  {
    match step
    case Write(e) =>
      var t := s.(attempted := s.attempted + multiset{e});
      if s.slots < MAX_CONCURRENT then t.(slots := s.slots + 1, inFlight := s.inFlight + [Delivery(e, 0, 0, None)])
      else t.(dropped := s.dropped + multiset{e})
    case Answer(k, reply) =>
      s.(inFlight := s.inFlight[k := Attempted(s.inFlight[k], reply)])
    case Fail(k) =>
      s.(inFlight := s.inFlight[k := GivenUp(s.inFlight[k])])
    case Release(k) =>
      var d := s.inFlight[k];
      var t := s.(slots := s.slots - 1, inFlight := s.inFlight[..k] + s.inFlight[k + 1..]);
      if d.result.value then t.(delivered := s.delivered + multiset{d.event})
      else t.(failed := s.failed + multiset{d.event})
  }

  /** Any interleaving of writes and delivery steps that can happen from `s`. */
  ghost predicate CanRun<E>(s: State<E>, steps: seq<Step<E>>)
    decreases |steps|
  {
    steps == [] || (Enabled(s, steps[0]) && CanRun(Next(s, steps[0]), steps[1..]))
  }

  ghost function Run<E>(s: State<E>, steps: seq<Step<E>>): State<E>
    requires CanRun(s, steps)
    decreases |steps|
  {
    if steps == [] then s else Run(Next(s, steps[0]), steps[1..])
  }

  // ------------------------------------------------------------- invariant

  ghost function Events<E>(ds: seq<Delivery<E>>): multiset<E> {
    if ds == [] then multiset{} else multiset{ds[0].event} + Events(ds[1..])
  }

  /** A delivery is somewhere in the retry loop. */
  ghost predicate InLoop<E>(d: Delivery<E>) {
    && d.attempts <= MAX_ATTEMPTS
    && (d.result.None? ==> d.attempts < MAX_ATTEMPTS)
    && (d.result == Some(true) ==> d.attempts > 0)
    && d.slept == (if d.attempts == 0 then 0 else SleptBefore(d.attempts - 1))
  }

  /** Every event handed to write is delivered, failed, in flight or dropped, exactly once each. */
  ghost predicate Balanced<E>(s: State<E>) {
    s.attempted == s.delivered + s.failed + Events(s.inFlight) + s.dropped
  }

  ghost predicate Inv<E>(s: State<E>) {
    && s.slots == |s.inFlight| <= MAX_CONCURRENT
    && Balanced(s)
    && (forall i | 0 <= i < |s.inFlight| :: InLoop(s.inFlight[i]))
  }

  lemma {:induction false} EventsSum<E>(a: seq<Delivery<E>>, b: seq<Delivery<E>>)
    ensures Events(a + b) == Events(a) + Events(b)
    decreases |a|
  {
    if a == [] {
      assert a + b == b;
    } else {
      assert (a + b)[1..] == a[1..] + b;
      EventsSum(a[1..], b);
    }
  }

  lemma EventsWith<E>(ds: seq<Delivery<E>>, k: nat, d: Delivery<E>)
    requires k < |ds|
    ensures Events(ds[k := d]) == Events(ds[..k] + ds[k + 1..]) + multiset{d.event}
  {
    hide *;
    var left, right := ds[..k], ds[k + 1..];
    SplitAt(ds, k, d);
    EventsCons(d, right);
    EventsSum(left, right);
    EventsSum(left, [d] + right);
    Rotate(Events(left), multiset{d.event}, Events(right));
  }

  lemma SplitAt<T>(s: seq<T>, k: nat, x: T)
    requires k < |s|
    ensures s[k := x] == s[..k] + ([x] + s[k + 1..])
  {
  }

  lemma EventsCons<E>(d: Delivery<E>, ds: seq<Delivery<E>>)
    ensures Events([d] + ds) == multiset{d.event} + Events(ds)
  {
    assert ([d] + ds)[1..] == ds;
  }

  lemma Rotate<E>(a: multiset<E>, b: multiset<E>, c: multiset<E>)
    ensures a + (b + c) == a + c + b
  {
  }

  lemma MoveLast<E>(a: multiset<E>, b: multiset<E>, c: multiset<E>, x: multiset<E>, d: multiset<E>)
    ensures a + b + (c + x) + d == (a + x) + b + c + d == a + (b + x) + c + d
  {
  }

  lemma AttemptedInLoop<E>(d: Delivery<E>, reply: Reply)
    requires InLoop(d) && d.result.None?
    ensures InLoop(Attempted(d, reply))
  {
    if d.attempts > 0 {
      assert SleptBefore(d.attempts) == SleptBefore(d.attempts - 1) + d.attempts * BACKOFF_MS;
    }
  }

  lemma WriteKeepsInv<E>(s: State<E>, e: E)
    requires Inv(s)
    ensures Inv(Next(s, Write(e)))
  {
    var d := Delivery(e, 0, 0, None);
    WriteBalances(s, e);
    assert InLoop(d);
    hide Balanced, InLoop;
  }

  lemma WriteBalances<E>(s: State<E>, e: E)
    requires Balanced(s)
    ensures Balanced(Next(s, Write(e)))
  {
    var d := Delivery(e, 0, 0, None);
    EventsSum(s.inFlight, [d]);
    assert [d] + [] == [d];
    EventsCons(d, []);
    hide Events;
    EventsNone<E>();
    AddInFlight(s.delivered + s.failed, Events(s.inFlight), multiset{e}, s.dropped);
  }

  lemma EventsNone<E>()
    ensures Events<E>([]) == multiset{}
  {
  }

  lemma AddInFlight<E>(a: multiset<E>, b: multiset<E>, x: multiset<E>, d: multiset<E>)
    ensures a + b + d + x == a + (b + (x + multiset{})) + d == a + b + (d + x)
  {
  }

  lemma ReplacedBalances<E>(s: State<E>, k: nat, d: Delivery<E>)
    requires Balanced(s) && k < |s.inFlight| && d.event == s.inFlight[k].event
    ensures Balanced(s.(inFlight := s.inFlight[k := d]))
  {
    var ds := s.inFlight;
    EventsWith(ds, k, ds[k]);
    EventsWith(ds, k, d);
    assert ds[k := ds[k]] == ds;
    hide Events;
  }

  /** A step of one delivery that keeps its event keeps the balance. */
  lemma ReplacedKeepsInv<E>(s: State<E>, k: nat, d: Delivery<E>)
    requires Inv(s) && k < |s.inFlight| && d.event == s.inFlight[k].event && InLoop(d)
    ensures Inv(s.(inFlight := s.inFlight[k := d]))
  {
    ReplacedBalances(s, k, d);
    hide Balanced, InLoop;
  }

  lemma AnswerKeepsInv<E>(s: State<E>, k: nat, reply: Reply)
    requires Inv(s) && Enabled(s, Answer(k, reply))
    ensures Inv(Next(s, Answer(k, reply)))
  {
    AttemptedInLoop(s.inFlight[k], reply);
    ReplacedKeepsInv(s, k, Attempted(s.inFlight[k], reply));
    hide Inv, InLoop;
  }

  lemma FailKeepsInv<E>(s: State<E>, k: nat)
    requires Inv(s) && Enabled(s, Fail(k))
    ensures Inv(Next(s, Fail(k)))
  {
    assert InLoop(GivenUp(s.inFlight[k]));
    ReplacedKeepsInv(s, k, GivenUp(s.inFlight[k]));
    hide Inv, InLoop;
  }

  lemma ReleaseBalances<E>(s: State<E>, k: nat)
    requires Balanced(s) && Enabled(s, Release(k))
    ensures Balanced(Next(s, Release(k)))
  {
    var ds := s.inFlight;
    EventsWith(ds, k, ds[k]);
    assert ds[k := ds[k]] == ds;
    hide Events;
    MoveLast(s.delivered, s.failed, Events(ds[..k] + ds[k + 1..]), multiset{ds[k].event}, s.dropped);
  }

  lemma ReleaseKeepsInv<E>(s: State<E>, k: nat)
    requires Inv(s) && Enabled(s, Release(k))
    ensures Inv(Next(s, Release(k)))
  {
    ReleaseBalances(s, k);
    hide Balanced, InLoop;
    var ds, rest := s.inFlight, s.inFlight[..k] + s.inFlight[k + 1..];
    forall i | 0 <= i < |rest|
      ensures InLoop(rest[i])
    {
      assert rest[i] == if i < k then ds[i] else ds[i + 1];
    }
  }

  /** Every step keeps the slots equal to the deliveries in flight and accounts for every event. */
  lemma StepKeepsInv<E>(s: State<E>, step: Step<E>)
    requires Inv(s) && Enabled(s, step)
    ensures Inv(Next(s, step))
  {
    hide Inv, Next;
    match step {
      case Write(e) => WriteKeepsInv(s, e);
      case Answer(k, reply) => AnswerKeepsInv(s, k, reply);
      case Fail(k) => FailKeepsInv(s, k);
      case Release(k) => ReleaseKeepsInv(s, k);
    }
  }

  /**
   * Over every interleaving: occupied slots are the deliveries in flight and never exceed 64, every event
   * handed to write is delivered, failed, in flight or dropped, exactly once each, and no delivery is past
   * its third attempt or 1500 ms of back-off.
   */
  lemma {:induction false} RunKeepsInv<E>(s: State<E>, steps: seq<Step<E>>)
    requires Inv(s) && CanRun(s, steps)
    ensures Inv(Run(s, steps))
    ensures forall i | 0 <= i < |Run(s, steps).inFlight| :: Run(s, steps).inFlight[i].attempts <= 3 && Run(s, steps).inFlight[i].slept <= 1500
    decreases |steps|
  {
    if steps == [] {
      assert SleptBefore(0) == 0 && SleptBefore(1) == 500 && SleptBefore(2) == 1500;
    } else {
      StepKeepsInv(s, steps[0]);
      RunKeepsInv(Next(s, steps[0]), steps[1..]);
    }
  }

  /** The events a run hands to write. */
  ghost function Written<E>(steps: seq<Step<E>>): multiset<E> {
    if steps == [] then multiset{}
    else (if steps[0].Write? then multiset{steps[0].event} else multiset{}) + Written(steps[1..])
  }

  lemma {:induction false} AttemptedIsWritten<E>(s: State<E>, steps: seq<Step<E>>)
    requires CanRun(s, steps)
    ensures Run(s, steps).attempted == s.attempted + Written(steps)
    decreases |steps|
  {
    if steps == [] {
      assert s.attempted + multiset{} == s.attempted;
    } else {
      AttemptedIsWritten(Next(s, steps[0]), steps[1..]);
    }
  }

  /** Conservation: from the start of the service, no event handed to write is lost or counted twice. */
  lemma Conservation<E>(steps: seq<Step<E>>)
    requires CanRun(Initial(), steps)
    ensures var s := Run(Initial(), steps);
            Written(steps) == s.delivered + s.failed + Events(s.inFlight) + s.dropped
  {
    RunKeepsInv(Initial(), steps);
    AttemptedIsWritten(Initial(), steps);
    hide *;
    assert multiset{} + Written(steps) == Written(steps);
    assert Initial<E>().attempted == multiset{};
  }

  /** write can always go on, and it drops its event exactly when 64 deliveries are in flight. */
  lemma DropsOnlyWhenFull<E>(steps: seq<Step<E>>, e: E)
    requires CanRun(Initial(), steps)
    ensures var s := Run(Initial(), steps);
            && Enabled(s, Write(e))
            && (Next(s, Write(e)).dropped != s.dropped <==> |s.inFlight| == MAX_CONCURRENT)
            && (Next(s, Write(e)).dropped == s.dropped ==> |Next(s, Write(e)).inFlight| == |s.inFlight| + 1)
  {
    RunKeepsInv(Initial(), steps);
    var s := Run(Initial(), steps);
    assert (s.dropped + multiset{e})[e] == s.dropped[e] + 1;
  }

  // -------------------------------------------------------------- draining

  /** Steps a delivery can still take. */
  function Remaining<E>(d: Delivery<E>): nat {
    if d.result.Some? then 1 else if d.attempts < MAX_ATTEMPTS then 1 + MAX_ATTEMPTS - d.attempts else 1
  }

  function Measure<E>(ds: seq<Delivery<E>>): nat {
    if ds == [] then 0 else Remaining(ds[0]) + Measure(ds[1..])
  }

  lemma {:induction false} MeasureSum<E>(a: seq<Delivery<E>>, b: seq<Delivery<E>>)
    ensures Measure(a + b) == Measure(a) + Measure(b)
    decreases |a|
  {
    if a == [] {
      assert a + b == b;
    } else {
      assert (a + b)[1..] == a[1..] + b;
      MeasureSum(a[1..], b);
    }
  }

  lemma MeasureAt<E>(ds: seq<Delivery<E>>, k: nat, d: Delivery<E>)
    requires k < |ds|
    ensures Measure(ds) == Measure(ds[..k] + ds[k + 1..]) + Remaining(ds[k])
    ensures Measure(ds[k := d]) == Measure(ds) - Remaining(ds[k]) + Remaining(d)
  {
    MeasureSum(ds[..k], ds[k + 1..]);
    MeasureSum(ds[..k], [ds[k]] + ds[k + 1..]);
    MeasureSum(ds[..k], [d] + ds[k + 1..]);
    assert ds == ds[..k] + ([ds[k]] + ds[k + 1..]);
    assert ds[k := d] == ds[..k] + ([d] + ds[k + 1..]);
    assert ([ds[k]] + ds[k + 1..])[1..] == ds[k + 1..] == ([d] + ds[k + 1..])[1..];
  }

  /** Each delivery step makes progress, and while deliveries are in flight one of them can move. */
  lemma DeliveryStepDecreases<E>(s: State<E>, step: Step<E>)
    requires Inv(s) && Enabled(s, step) && !step.Write?
    ensures Measure(Next(s, step).inFlight) < Measure(s.inFlight)
  {
    var d := s.inFlight[step.k];
    MeasureAt(s.inFlight, step.k, if step.Answer? then Attempted(d, step.reply) else if step.Fail? then GivenUp(d) else d);
  }

  lemma {:induction false} MeasureBound<E>(ds: seq<Delivery<E>>)
    ensures Measure(ds) <= 4 * |ds|
    ensures Measure(ds) == 0 <==> ds == []
  {
    if ds != [] {
      MeasureBound(ds[1..]);
    }
  }

  /**
   * Draining: once nothing more is written, whatever core answers, at most 256 further steps are possible,
   * and a run that cannot go on has nothing in flight.
   */
  lemma {:induction false} Drains<E>(s: State<E>, steps: seq<Step<E>>)
    requires Inv(s) && CanRun(s, steps)
    requires forall i | 0 <= i < |steps| :: !steps[i].Write?
    ensures |steps| <= Measure(s.inFlight) <= 256
    ensures (forall step: Step<E> | !step.Write? :: !Enabled(Run(s, steps), step)) <==> Run(s, steps).inFlight == []
    decreases |steps|
  {
    MeasureBound(s.inFlight);
    if steps == [] {
      if s.inFlight != [] {
        var step := if s.inFlight[0].result.None? then Answer(0, NetworkError) else Release(0);
        assert Enabled(s, step);
      }
    } else {
      StepKeepsInv(s, steps[0]);
      DeliveryStepDecreases(s, steps[0]);
      Drains(Next(s, steps[0]), steps[1..]);
    }
  }

  // --------------------------------------------- the deliveries run Record's loop

  /** The attempts of one delivery, until it has a result. */
  function AttemptAll<E>(d: Delivery<E>, replies: seq<Reply>): Delivery<E>
    decreases |replies|
  {
    if d.result.Some? || replies == [] then d else AttemptAll(Attempted(d, replies[0]), replies[1..])
  }

  /** One delivery from its start: it gives up where no request can be built, and otherwise attempts. */
  function Worked<E>(e: E, marshals: bool, builds: bool, replies: seq<Reply>): Delivery<E> {
    if !marshals || !builds then GivenUp(Delivery(e, 0, 0, None)) else AttemptAll(Delivery(e, 0, 0, None), replies)
  }

  /** The steps of one delivery end as coreSink.Record ends in the same circumstances. */
  lemma DeliveryRunsRecord<E>(e: E, marshals: bool, builds: bool, replies: seq<Reply>, err: Option<SinkError>, attempts: nat, slept: nat)
    requires Reports(marshals, builds, replies, err, attempts, slept)
    ensures Worked(e, marshals, builds, replies) == Delivery(e, attempts, slept, Some(err.None?))
  {
    if marshals && builds {
      AttemptsFrom(Delivery(e, 0, 0, None), replies, 0, attempts - 1);
      assert replies[0..] == replies;
    }
  }

  lemma {:induction false} AttemptsFrom<E>(d: Delivery<E>, replies: seq<Reply>, i: nat, k: nat)
    requires Decides(replies, k) && i <= k
    requires InLoop(d) && d.attempts == i && d.result.None?
    ensures AttemptAll(d, replies[i..]) == Delivery(d.event, k + 1, SleptBefore(k), Some(Succeeds(replies[k])))
    decreases k - i
  {
    var d' := Attempted(d, replies[i]);
    AttemptedInLoop(d, replies[i]);
    assert replies[i..][1..] == replies[i + 1..];
    if i < k {
      AttemptsFrom(d', replies, i + 1, k);
    }
  }

  // ------------------------------------------------- what becomes of the events

  function Writes<E>(events: seq<E>): seq<Step<E>> {
    if events == [] then [] else [Write(events[0])] + Writes(events[1..])
  }

  function Started<E>(events: seq<E>): seq<Delivery<E>> {
    if events == [] then [] else [Delivery(events[0], 0, 0, None)] + Started(events[1..])
  }

  /** After a burst of writes: the free slots are taken in order, and what comes later is dropped. */
  ghost function Flooded<E>(s: State<E>, events: seq<E>): State<E>
    requires s.slots <= 64
  {
    var n := if |events| < 64 - s.slots then |events| else 64 - s.slots;
    s.(slots := s.slots + n, inFlight := s.inFlight + Started(events[..n]),
       attempted := s.attempted + multiset(events), dropped := s.dropped + multiset(events[n..]))
  }

  /** Of the events written before any delivery ends, the first 64 are under way and the others are dropped. */
  lemma SixtyFourStart<E>(events: seq<E>)
    ensures CanRun(Initial(), Writes(events))
    ensures var n := if |events| < 64 then |events| else 64;
            Run(Initial(), Writes(events)) ==
            State(n, Started(events[..n]), multiset(events), multiset{}, multiset{}, multiset(events[n..]))
  {
    hide Started, Writes, CanRun, Run;
    WritesFrom(Initial(), events);
    var n := if |events| < 64 then |events| else 64;
    NothingPlus(Started(events[..n]), multiset(events));
    NothingPlus(Started(events[..n]), multiset(events[n..]));
  }

  lemma NothingPlus<D, E>(ds: seq<D>, m: multiset<E>)
    ensures [] + ds == ds && multiset{} + m == m
  {
  }

  lemma {:induction false} WritesFrom<E>(s: State<E>, events: seq<E>)
    requires s.slots <= 64
    ensures CanRun(s, Writes(events)) && Run(s, Writes(events)) == Flooded(s, events)
    decreases |events|
  {
    hide Started, Flooded, Next;
    if events == [] {
      FloodedByNone(s);
    } else {
      var e := events[0];
      if s.slots < 64 {
        FloodTakesSlot(s, events);
      } else {
        FloodDrops(s, events);
      }
      WritesFrom(Next(s, Write(e)), events[1..]);
      RunOne(s, Write(e), Writes(events[1..]));
    }
  }

  lemma FloodedByNone<E>(s: State<E>)
    requires s.slots <= 64
    ensures Flooded(s, []) == s
  {
    assert s.inFlight + [] == s.inFlight && s.attempted + multiset{} == s.attempted && s.dropped + multiset{} == s.dropped;
  }

  lemma FloodTakesSlot<E>(s: State<E>, events: seq<E>)
    requires s.slots < 64 && events != []
    ensures Next(s, Write(events[0])).slots <= 64
    ensures Flooded(Next(s, Write(events[0])), events[1..]) == Flooded(s, events)
  {
    hide Started;
    var n := if |events| < 64 - s.slots then |events| else 64 - s.slots;
    StartedMore(s.inFlight, events, n);
    Count(s.attempted, events[0], events[1..]);
    assert events == [events[0]] + events[1..];
  }

  lemma FloodDrops<E>(s: State<E>, events: seq<E>)
    requires s.slots == 64 && events != []
    ensures Next(s, Write(events[0])).slots <= 64
    ensures Flooded(Next(s, Write(events[0])), events[1..]) == Flooded(s, events)
  {
    var rest := events[1..];
    assert events == [events[0]] + rest;
    assert events[..0] == [] && rest[..0] == [] && events[0..] == events && rest[0..] == rest;
    Count(s.attempted, events[0], rest);
    Count(s.dropped, events[0], rest);
    hide Started;
  }

  lemma Count<E>(m: multiset<E>, e: E, rest: seq<E>)
    ensures m + multiset{e} + multiset(rest) == m + multiset([e] + rest)
  {
  }

  lemma StartedMore<E>(inFlight: seq<Delivery<E>>, events: seq<E>, n: nat)
    requires 0 < n <= |events|
    ensures inFlight + [Delivery(events[0], 0, 0, None)] + Started(events[1..][..n - 1]) == inFlight + Started(events[..n])
    ensures events[1..][n - 1..] == events[n..]
  {
    assert events[..n][1..] == events[1..][..n - 1];
  }

  lemma RunOne<E>(s: State<E>, step: Step<E>, rest: seq<Step<E>>)
    requires Enabled(s, step) && CanRun(Next(s, step), rest)
    ensures CanRun(s, [step] + rest) && Run(s, [step] + rest) == Run(Next(s, step), rest)
  {
    assert ([step] + rest)[1..] == rest;
  }

  function Answers<E>(k: nat, replies: seq<Reply>): seq<Step<E>> {
    if replies == [] then [] else [Answer(k, replies[0])] + Answers(k, replies[1..])
  }

  /** The steps a delivery takes once it has started as the k-th one in flight, if nothing comes in between. */
  function Course<E>(k: nat, sends: bool, replies: seq<Reply>): seq<Step<E>> {
    (if sends then Answers(k, replies) else [Fail(k)]) + [Release(k)]
  }

  /**
   * An event that gets a slot ends up among the delivered ones exactly when coreSink.Record reports no error
   * for it, and otherwise among the failed ones; its slot is free again, and nothing else has changed.
   */
  lemma EventEndsAsRecordReports<E>(s: State<E>, e: E, marshals: bool, builds: bool, replies: seq<Reply>,
                                    err: Option<SinkError>, attempts: nat, slept: nat)
    requires s.slots == |s.inFlight| < 64 && attempts <= |replies|
    requires Reports(marshals, builds, replies, err, attempts, slept)
    ensures
      var steps := [Write(e)] + Course(|s.inFlight|, marshals && builds, replies[..attempts]);
      && CanRun(s, steps)
      && Run(s, steps) == s.(attempted := s.attempted + multiset{e},
                             delivered := if err.None? then s.delivered + multiset{e} else s.delivered,
                             failed := if err.None? then s.failed else s.failed + multiset{e})
  {
    var k := |s.inFlight|;
    var t := s.(attempted := s.attempted + multiset{e}, slots := k + 1, inFlight := s.inFlight + [Delivery(e, 0, 0, None)]);
    assert Next(s, Write(e)) == t;
    hide CanRun, Run, Next, Course;
    CourseRuns(t, s.inFlight, e, marshals, builds, replies, err, attempts, slept);
    ReleaseLast(t, s.inFlight, Delivery(e, attempts, slept, Some(err.None?)));
    RunOne(s, Write(e), Course(k, marshals && builds, replies[..attempts]));
  }

  lemma CourseRuns<E>(t: State<E>, before: seq<Delivery<E>>, e: E, marshals: bool, builds: bool, replies: seq<Reply>,
                      err: Option<SinkError>, attempts: nat, slept: nat)
    requires t.inFlight == before + [Delivery(e, 0, 0, None)] && t.slots > 0 && attempts <= |replies|
    requires Reports(marshals, builds, replies, err, attempts, slept)
    ensures
      var u := t.(inFlight := before + [Delivery(e, attempts, slept, Some(err.None?))]);
      var steps := Course<E>(|before|, marshals && builds, replies[..attempts]);
      CanRun(t, steps) && CanRun(u, [Release(|before|)]) && Run(t, steps) == Run(u, [Release(|before|)])
  {
    var k, d := |before|, Delivery(e, 0, 0, None);
    ReleaseLast(t, before, Delivery(e, attempts, slept, Some(err.None?)));
    if marshals && builds {
      hide CanRun, Run, Next;
      AnswersRun(t, before, d, replies, 0, attempts - 1);
      assert replies[0..attempts] == replies[..attempts];
    } else {
      assert t.inFlight[k := GivenUp(d)] == before + [Delivery(e, 0, 0, Some(false))];
      hide CanRun, Run;
      RunOne(t, Fail(k), [Release(k)]);
    }
  }

  /** The last delivery in flight returns. */
  lemma ReleaseLast<E>(t: State<E>, before: seq<Delivery<E>>, done: Delivery<E>)
    requires done.result.Some? && t.slots > 0
    ensures var u := t.(inFlight := before + [done]);
            && CanRun(u, [Release(|before|)])
            && Run(u, [Release(|before|)]) ==
               t.(slots := t.slots - 1, inFlight := before,
                  delivered := if done.result.value then t.delivered + multiset{done.event} else t.delivered,
                  failed := if done.result.value then t.failed else t.failed + multiset{done.event})
  {
    var u := t.(inFlight := before + [done]);
    assert u.inFlight[..|before|] + u.inFlight[|before| + 1..] == before;
    var last: seq<Step<E>> := [Release(|before|)];
    assert last + [] == last;
    RunOne(u, Release(|before|), []);
  }

  /** The attempts of the last delivery in flight, up to the deciding one, and its return. */
  lemma {:induction false} AnswersRun<E>(t: State<E>, before: seq<Delivery<E>>, d: Delivery<E>, replies: seq<Reply>, i: nat, k: nat)
    requires Decides(replies, k) && i <= k && t.slots > 0
    requires t.inFlight == before + [d] && InLoop(d) && d.attempts == i && d.result.None?
    ensures
      var done := Delivery(d.event, k + 1, SleptBefore(k), Some(Succeeds(replies[k])));
      var steps := Answers(|before|, replies[i..k + 1]) + [Release(|before|)];
      && CanRun(t, steps)
      && Run(t, steps) == Run(t.(inFlight := before + [done]), [Release(|before|)])
      && CanRun(t.(inFlight := before + [done]), [Release(|before|)])
    decreases k - i
  {
    var n := |before|;
    var d' := Attempted(d, replies[i]);
    var u := t.(inFlight := before + [d']);
    var rest := Answers<E>(n, replies[i + 1..k + 1]) + [Release(n)];
    AttemptedInLoop(d, replies[i]);
    assert t.inFlight[n := d'] == before + [d'];
    assert replies[i..k + 1][1..] == replies[i + 1..k + 1];
    assert Answers<E>(n, replies[i..k + 1]) + [Release(n)] == [Answer(n, replies[i])] + rest;
    var done := Delivery(d.event, k + 1, SleptBefore(k), Some(Succeeds(replies[k])));
    ReleaseLast(t, before, done);
    if i < k {
      AnswersRun(u, before, d', replies, i + 1, k);
    } else {
      assert d' == done;
      assert replies[i + 1..k + 1] == [];
      assert rest == [Release(n)];
    }
    RunOne(t, Answer(n, replies[i]), rest);
  }

  // ------------------------------------------------------------ the runtime

  /** The runtime a service's audit middleware shares between requests. */
  class Runtime {
    const source: string
    var slots: nat
    var inFlight: seq<Delivery<Event>>
    ghost var attempted: multiset<Event>
    ghost var delivered: multiset<Event>
    ghost var failed: multiset<Event>
    ghost var dropped: multiset<Event>

    constructor (source: string)
      ensures View() == Initial() && this.source == source
    {
      this.source := source;
      slots, inFlight := 0, [];
      attempted, delivered, failed, dropped := multiset{}, multiset{}, multiset{}, multiset{};
    }

    ghost function View(): State<Event>
      reads this
    {
      State(slots, inFlight, attempted, delivered, failed, dropped)
    }

    /** write: stamp the source, then take a slot or drop; `started` tells whether a delivery began. */
    method Write(e: Event) returns (started: bool)
      modifies this
      ensures View() == Next(old(View()), Step.Write(Sourced(e, source)))
      ensures started <==> old(slots) < MAX_CONCURRENT
    {
      var stamped := if e.sourceService == "" then e.(sourceService := source) else e;
      assert stamped == Sourced(e, source);
      ghost var after := Next(View(), Step.Write(stamped));
      started := slots < MAX_CONCURRENT;
      assert after == State(if started then slots + 1 else slots,
                            if started then inFlight + [Delivery(stamped, 0, 0, None)] else inFlight,
                            attempted + multiset{stamped}, delivered, failed,
                            if started then dropped else dropped + multiset{stamped});
      hide Next, Sourced;
      attempted := attempted + multiset{stamped};
      if started {
        slots := slots + 1;
        inFlight := inFlight + [Delivery(stamped, 0, 0, None)];
      } else {
        dropped := dropped + multiset{stamped};
      }
    }

    /** One attempt of the k-th delivery. */
    method AnswerDelivery(k: nat, reply: Reply)
      requires Enabled(View(), Answer(k, reply))
      modifies this
      ensures View() == Next(old(View()), Answer(k, reply))
    {
      inFlight := inFlight[k := Attempted(inFlight[k], reply)];
    }

    /** The k-th delivery finds that its event cannot be sent. */
    method FailDelivery(k: nat)
      requires Enabled(View(), Fail(k))
      modifies this
      ensures View() == Next(old(View()), Fail(k))
    {
      inFlight := inFlight[k := GivenUp(inFlight[k])];
    }

    /** The k-th delivery returns and gives its slot back. */
    method ReleaseSlot(k: nat)
      requires Enabled(View(), Release(k))
      modifies this
      ensures View() == Next(old(View()), Release(k))
    {
      var d := inFlight[k];
      ghost var after := Next(View(), Release(k));
      assert after == State(slots - 1, inFlight[..k] + inFlight[k + 1..], attempted,
                            if d.result.value then delivered + multiset{d.event} else delivered,
                            if d.result.value then failed else failed + multiset{d.event}, dropped);
      hide Next;
      if d.result.value {
        delivered := delivered + multiset{d.event};
      } else {
        failed := failed + multiset{d.event};
      }
      slots := slots - 1;
      inFlight := inFlight[..k] + inFlight[k + 1..];
    }
  }
}
