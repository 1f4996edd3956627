/** The cross-instance event bus: origin stamping, an outgoing queue, Redis fan-out, echo
    suppression and local republication. */
module EventBus {
  import opened Basics

  /** An event. No process looks at its body. */
  datatype AuthEvent<Body> = AuthEvent(body: Body, origin: Option<string>)

  /** A payload on the Redis channel; `Junk` does not decode to an event. */
  datatype Message<Body> = Wire(event: AuthEvent<Body>) | Junk

  function Stamped<Body>(ev: AuthEvent<Body>, origin: string): AuthEvent<Body> {
    if ev.origin.None? then ev.(origin := Some(origin)) else ev
  }

  /** What the subscriber of `origin` passes on: everything but junk and its own echoes. */
  function Accepted<Body>(origin: string, ms: seq<Message<Body>>): seq<AuthEvent<Body>> {
    if ms == [] then []
    else
      var rest, m := Accepted(origin, ms[..|ms| - 1]), ms[|ms| - 1];
      if m.Wire? && m.event.origin != Some(origin) then rest + [m.event] else rest
  }

  /** The publishes that succeed. */
  function Published<Body>(evs: seq<AuthEvent<Body>>, ok: nat -> bool): seq<AuthEvent<Body>> {
    if evs == [] then []
    else
      var n := |evs| - 1;
      if ok(n) then Published(evs[..n], ok) + [evs[n]] else Published(evs[..n], ok)
  }

  /** One process: its broadcast channel (as the log of what was sent on it) and the queue of
      its publisher task. */
  class AuthEventBus<Body> {
    const origin: string
    const bridged: bool
    var sent: seq<AuthEvent<Body>>
    var queue: seq<AuthEvent<Body>>

    constructor (origin: string, bridged: bool)
      ensures this.origin == origin && this.bridged == bridged && sent == [] && queue == []
    {
      this.origin, this.bridged, sent, queue := origin, bridged, [], [];
    }

    method PublishLocal(ev: AuthEvent<Body>)
      modifies this`sent
      ensures sent == old(sent) + [ev]
    {
      sent := sent + [ev];
    }

    method Publish(ev: AuthEvent<Body>)
      modifies this
      ensures sent == old(sent) + [Stamped(ev, origin)]
      ensures queue == if bridged then old(queue) + [Stamped(ev, origin)] else old(queue)
    {
      var e := ev;
      if e.origin.None? {
        e := e.(origin := Some(origin));
      }
      if bridged {
        queue := queue + [e];
      }
      sent := sent + [e];
    }

    /** The subscriber task over a stretch of its stream. */
    method RunSubscriber(stream: seq<Message<Body>>)
      modifies this`sent
      ensures sent == old(sent) + Accepted(origin, stream)
    {
      var i := 0;
      while i < |stream|
        invariant 0 <= i <= |stream|
        invariant sent == old(sent) + Accepted(origin, stream[..i])
      {
        assert stream[..i + 1][..i] == stream[..i];
        match stream[i] {
          case Junk =>
          case Wire(ev) =>
            if ev.origin != Some(origin) {
              PublishLocal(ev);
            }
        }
        i := i + 1;
      }
      assert stream[..i] == stream;
    }

    /** The publisher task: take from the queue, publish, ignore the outcome. */
    method RunPublisher(ok: nat -> bool) returns (wire: seq<AuthEvent<Body>>)
      modifies this`queue
      ensures queue == []
      ensures wire == Published(old(queue), ok)
    {
      wire := [];
      var taken := 0;
      while queue != []
        invariant 0 <= taken <= |old(queue)| && queue == old(queue)[taken..]
        invariant wire == Published(old(queue)[..taken], ok)
        decreases |queue|
      {
        assert old(queue)[..taken + 1][..taken] == old(queue)[..taken];
        if ok(taken) {
          wire := wire + [queue[0]];
        }
        queue := queue[1..];
        taken := taken + 1;
      }
      assert old(queue)[..taken] == old(queue);
    }
  }

  // ------------------------------------------------------------------ the network

  /** A body that records, for the argument only, which process published the event and as
      which of its events. */
  datatype Note = Note(author: string, nr: nat, content: string)

  type Event = AuthEvent<Note>

  /** A process as the network sees it. Handlers run side by side, and each publishes in two
      halves: it queues the event for the bridge, then sends it on the bus; `pending` is what
      is between the two. `published`, `aired`, `relayed` and `attempted` are histories: what
      handlers queued, what they sent, what the subscriber sent on, and what the publisher task
      took from its queue. */
  datatype Proc = Proc(
    published: seq<Event>,
    pending: seq<Event>,
    aired: seq<Event>,
    relayed: seq<Event>,
    attempted: seq<Event>,
    sent: seq<Event>,
    queue: seq<Event>,
    inbox: seq<Message<Note>>)

  /** Processes by origin, hence with distinct origins. */
  type Net = map<string, Proc>

  datatype Step =
    | Enqueue(p: string, content: string, stamp: Option<string>)
      // The handler of the pending event number `i` sends it.
    | Send(p: string, i: nat)
      // The publisher task of `p` sends its next event, which reaches these inboxes
      // (none when the publish fails).
    | Forward(p: string, reached: set<string>)
    | Noise(q: string)
    | Deliver(q: string)

  const IDLE := Proc([], [], [], [], [], [], [], [])

  /** The event a handler of `p` publishes next. */
  function NewEvent(p: string, s: Proc, content: string, stamp: Option<string>): Event {
    Stamped(AuthEvent(Note(p, |s.published|, content), stamp), p)
  }

  function Queueing(s: Proc, e: Event): Proc {
    s.(published := s.published + [e], pending := s.pending + [e], queue := s.queue + [e])
  }

  function Without(evs: seq<Event>, i: nat): seq<Event>
    requires i < |evs|
  {
    evs[..i] + evs[i + 1..]
  }

  function Sending(s: Proc, i: nat): Proc
    requires i < |s.pending|
  {
    s.(pending := Without(s.pending, i), aired := s.aired + [s.pending[i]], sent := s.sent + [s.pending[i]])
  }

  /** Taking the head of the queue. */
  function Took(s: Proc): Proc
    requires s.queue != []
  {
    s.(queue := s.queue[1..], attempted := s.attempted + [s.queue[0]])
  }

  function Got(s: Proc, m: Message<Note>): Proc {
    s.(inbox := s.inbox + [m])
  }

  /** Delivering the first message of the inbox. */
  function Relayed(q: string, s: Proc): Proc
    requires s.inbox != []
  {
    var passed := Accepted(q, [s.inbox[0]]);
    s.(inbox := s.inbox[1..], relayed := s.relayed + passed, sent := s.sent + passed)
  }

  function Next(net: Net, step: Step): Net {
    match step
    case Enqueue(p, content, stamp) =>
      if p !in net then net
      else net[p := Queueing(net[p], NewEvent(p, net[p], content, stamp))]
    case Send(p, i) =>
      if p !in net || i >= |net[p].pending| then net
      else net[p := Sending(net[p], i)]
    case Forward(p, reached) =>
      if p !in net || net[p].queue == [] then net
      else
        var m := Wire(net[p].queue[0]);
        var net' := net[p := Took(net[p])];
        map q | q in net' :: if q in reached then Got(net'[q], m) else net'[q]
    case Noise(q) =>
      if q !in net then net else net[q := Got(net[q], Junk)]
    case Deliver(q) =>
      if q !in net || net[q].inbox == [] then net else net[q := Relayed(q, net[q])]
  }

  function Exec(net: Net, steps: seq<Step>): Net {
    if steps == [] then net else Next(Exec(net, steps[..|steps| - 1]), steps[|steps| - 1])
  }

  // ------------------------------------------------------- steps and the bus object

  /** The two halves of a publish do to a process what `AuthEventBus.Publish` does to its
      bus. */
  lemma {:induction false} PublishMatchesBus(net: Net, p: string, content: string, stamp: Option<string>)
    requires p in net
    ensures var e := Stamped(AuthEvent(Note(p, |net[p].published|, content), stamp), p);
            var net' := Next(Next(net, Enqueue(p, content, stamp)), Send(p, |net[p].pending|));
            net' == net[p := net[p].(sent := net[p].sent + [e], queue := net[p].queue + [e],
                                     published := net[p].published + [e], aired := net[p].aired + [e])]
  {
    var e := NewEvent(p, net[p], content, stamp);
    assert Without(net[p].pending + [e], |net[p].pending|) == net[p].pending;
  }

  /** Whom each of `n` publishes in a row reaches: all of `qs` or nobody. */
  function Forwards(p: string, qs: set<string>, ok: nat -> bool, n: nat): seq<Step> {
    seq(n, i requires 0 <= i < n => Forward(p, if ok(i) then qs else {}))
  }

  function Wires(evs: seq<Event>): seq<Message<Note>> {
    seq(|evs|, i requires 0 <= i < |evs| => Wire(evs[i]))
  }

  lemma {:induction false} ForwardsSnoc(p: string, qs: set<string>, ok: nat -> bool, n: nat)
    ensures Forwards(p, qs, ok, n + 1) == Forwards(p, qs, ok, n) + [Forward(p, if ok(n) then qs else {})]
  {}

  lemma {:induction false} PublishedSnoc(evs: seq<Event>, ok: nat -> bool, n: nat)
    requires n < |evs|
    ensures Wires(Published(evs[..n + 1], ok))
            == Wires(Published(evs[..n], ok)) + if ok(n) then [Wire(evs[n])] else []
  {
    assert evs[..n + 1][..n] == evs[..n];
  }

  /** One forward step, process by process. */
  lemma {:induction false} ForwardFields(net: Net, p: string, reached: set<string>, q: string)
    requires p in net && net[p].queue != [] && q in net
    ensures var net' := Next(net, Forward(p, reached));
            && net'.Keys == net.Keys
            && net'[q].published == net[q].published && net'[q].relayed == net[q].relayed
            && net'[q].sent == net[q].sent
            && net'[q].queue == (if q == p then net[q].queue[1..] else net[q].queue)
            && net'[q].inbox == if q in reached then net[q].inbox + [Wire(net[p].queue[0])] else net[q].inbox
  {}

  /** As many forward steps as the queue holds take from the queue and put into every inbox
      what the publisher task takes and puts on the wire. */
  lemma {:induction false} ForwardsMatchPublisher(net: Net, p: string, ok: nat -> bool, n: nat, q: string)
    requires p in net && n <= |net[p].queue| && q in net
    ensures var net' := Exec(net, Forwards(p, net.Keys, ok, n));
            && net'.Keys == net.Keys
            && net'[p].queue == net[p].queue[n..]
            && net'[q].sent == net[q].sent
            && net'[q].inbox == net[q].inbox + Wires(Published(net[p].queue[..n], ok))
  {
    var queue := net[p].queue;
    if n == 0 {
      assert Forwards(p, net.Keys, ok, 0) == [] && queue[0..] == queue && queue[..0] == [];
      assert Wires(Published(queue[..0], ok)) == [];
    } else {
      var k := n - 1;
      var step := Forward(p, if ok(k) then net.Keys else {});
      var before := Exec(net, Forwards(p, net.Keys, ok, k));
      ForwardsMatchPublisher(net, p, ok, k, q);
      ForwardsSnoc(p, net.Keys, ok, k);
      assert Forwards(p, net.Keys, ok, n)[..k] == Forwards(p, net.Keys, ok, k);
      assert Exec(net, Forwards(p, net.Keys, ok, n)) == Next(before, step);
      assert queue[k..][0] == queue[k] && queue[k..][1..] == queue[n..];
      ForwardFields(before, p, step.reached, p);
      ForwardFields(before, p, step.reached, q);
      PublishedSnoc(queue, ok, k);
      Assoc(net[q].inbox, Wires(Published(queue[..k], ok)), [Wire(queue[k])]);
    }
  }

  /** A process after the first `n` messages of its inbox were delivered. */
  function DeliveredTo(q: string, s: Proc, n: nat): Proc
    requires n <= |s.inbox|
  {
    var passed := Accepted(q, s.inbox[..n]);
    s.(sent := s.sent + passed, relayed := s.relayed + passed, inbox := s.inbox[n..])
  }

  lemma {:induction false} DeliveredNext(q: string, s: Proc, n: nat)
    requires n < |s.inbox|
    ensures Relayed(q, DeliveredTo(q, s, n)) == DeliveredTo(q, s, n + 1)
  {
    var ms := s.inbox;
    assert ms[n..][0] == ms[n] && ms[n..][1..] == ms[n + 1..];
    AcceptedSnoc(q, ms, n);
    Assoc(s.sent, Accepted(q, ms[..n]), Accepted(q, [ms[n]]));
    Assoc(s.relayed, Accepted(q, ms[..n]), Accepted(q, [ms[n]]));
  }

  lemma {:induction false} DeliveredNone(q: string, s: Proc)
    ensures DeliveredTo(q, s, 0) == s
  {
    assert s.inbox[..0] == [] && s.inbox[0..] == s.inbox && s.sent + [] == s.sent && s.relayed + [] == s.relayed;
  }

  /** As many deliveries as the inbox holds do to a process what its subscriber task does to
      the bus. */
  lemma {:induction false} DeliveriesMatchSubscriber(net: Net, q: string, n: nat)
    requires q in net && n <= |net[q].inbox|
    ensures Exec(net, seq(n, _ => Deliver(q))) == net[q := DeliveredTo(q, net[q], n)]
  {
    if n == 0 {
      DeliveredNone(q, net[q]);
      assert net[q := net[q]] == net;
    } else {
      DeliveriesMatchSubscriber(net, q, n - 1);
      DeliverOneMore(net, q, n - 1);
      DeliveredNext(q, net[q], n - 1);
    }
  }

  lemma {:induction false} DeliverOneMore(net: Net, q: string, n: nat)
    ensures Exec(net, seq(n + 1, _ => Deliver(q))) == Next(Exec(net, seq(n, _ => Deliver(q))), Deliver(q))
  {
    assert seq(n + 1, _ => Deliver(q))[..n] == seq(n, _ => Deliver(q));
  }

  lemma {:induction false} AcceptedSnoc(q: string, ms: seq<Message<Note>>, i: nat)
    requires i < |ms|
    ensures Accepted(q, ms[..i + 1]) == Accepted(q, ms[..i]) + Accepted(q, [ms[i]])
  {
    assert ms[..i + 1][..i] == ms[..i];
    assert [ms[i]][..0] == [];
  }

  // -------------------------------------------------------------------- selecting

  /** Which events are looked at: all that `p` published, or those of them that the subscriber
      of `q` does not take for an echo. */
  datatype Selector = By(p: string) | Passing(p: string, q: string)

  predicate Selects(sel: Selector, e: Event) {
    e.body.author == sel.p && (sel.Passing? ==> e.origin != Some(sel.q))
  }

  function Pick(sel: Selector, evs: seq<Event>): seq<Event> {
    if evs == [] then []
    else
      var rest, e := Pick(sel, evs[..|evs| - 1]), evs[|evs| - 1];
      if Selects(sel, e) then rest + [e] else rest
  }

  function Events(ms: seq<Message<Note>>): seq<Event> {
    if ms == [] then []
    else
      var rest, m := Events(ms[..|ms| - 1]), ms[|ms| - 1];
      if m.Wire? then rest + [m.event] else rest
  }

  lemma {:induction false} PickSnoc(sel: Selector, evs: seq<Event>, e: Event)
    ensures Pick(sel, evs + [e]) == if Selects(sel, e) then Pick(sel, evs) + [e] else Pick(sel, evs)
  {
    assert (evs + [e])[..|evs|] == evs;
  }

  lemma {:induction false} PickConcat(sel: Selector, a: seq<Event>, b: seq<Event>)
    ensures Pick(sel, a + b) == Pick(sel, a) + Pick(sel, b)
  {
    if b == [] {
      assert a + b == a;
    } else {
      var n := |b| - 1;
      assert a + b == a + b[..n] + [b[n]] && b == b[..n] + [b[n]];
      PickSnoc(sel, a + b[..n], b[n]);
      PickSnoc(sel, b[..n], b[n]);
      PickConcat(sel, a, b[..n]);
    }
  }

  lemma {:induction false} EventsConcat(a: seq<Message<Note>>, b: seq<Message<Note>>)
    ensures Events(a + b) == Events(a) + Events(b)
  {
    if b == [] {
      assert a + b == a;
    } else {
      var n := |b| - 1;
      assert (a + b)[..|a + b| - 1] == a + b[..n];
      EventsConcat(a, b[..n]);
    }
  }

  /** A selected event occurs in the selection as often as before. */
  lemma {:induction false} PickCounts(sel: Selector, evs: seq<Event>, e: Event)
    requires Selects(sel, e)
    ensures multiset(Pick(sel, evs))[e] == multiset(evs)[e]
  {
    if evs != [] {
      var n := |evs| - 1;
      assert evs == evs[..n] + [evs[n]];
      PickCounts(sel, evs[..n], e);
    }
  }

  lemma {:induction false} PickIn(sel: Selector, evs: seq<Event>, e: Event)
    ensures e in Pick(sel, evs) <==> e in evs && Selects(sel, e)
  {
    if evs != [] {
      var n := |evs| - 1;
      assert evs == evs[..n] + [evs[n]];
      PickIn(sel, evs[..n], e);
    }
  }

  /** Two selectors that agree on the events of a list select the same. */
  lemma {:induction false} PickSame(sel: Selector, tel: Selector, evs: seq<Event>)
    requires forall e :: e in evs ==> (Selects(sel, e) <==> Selects(tel, e))
    ensures Pick(sel, evs) == Pick(tel, evs)
  {
    if evs != [] { PickSame(sel, tel, evs[..|evs| - 1]); }
  }

  lemma {:induction false} PickAll(sel: Selector, evs: seq<Event>)
    requires forall e :: e in evs ==> Selects(sel, e)
    ensures Pick(sel, evs) == evs
  {
    if evs != [] {
      var n := |evs| - 1;
      PickAll(sel, evs[..n]);
      assert evs == evs[..n] + [evs[n]] && evs[n] in evs;
    }
  }

  lemma {:induction false} PickNone(sel: Selector, evs: seq<Event>)
    requires forall e :: e in evs ==> !Selects(sel, e)
    ensures Pick(sel, evs) == []
  {
    if evs != [] {
      assert evs[|evs| - 1] in evs;
      PickNone(sel, evs[..|evs| - 1]);
    }
  }

  /** `a` is obtained from `b` by leaving events out: in order, none twice. */
  ghost predicate Subsequence(a: seq<Event>, b: seq<Event>) {
    a == [] ||
    (b != [] &&
     ((a[|a| - 1] == b[|b| - 1] && Subsequence(a[..|a| - 1], b[..|b| - 1]))
      || Subsequence(a, b[..|b| - 1])))
  }

  lemma {:induction false} SubsequenceSnoc(a: seq<Event>, b: seq<Event>, e: Event)
    requires Subsequence(a, b)
    ensures Subsequence(a + [e], b + [e])
  {
    assert (a + [e])[..|a|] == a && (b + [e])[..|b|] == b;
  }

  lemma {:induction false} SubsequenceDrop(x: seq<Event>, h: Event, y: seq<Event>, b: seq<Event>)
    requires Subsequence(x + [h] + y, b)
    ensures Subsequence(x + y, b)
    decreases |b|
  {
    var a, n := x + [h] + y, |y| - 1;
    var init := b[..|b| - 1];
    if a[|a| - 1] == b[|b| - 1] && Subsequence(a[..|a| - 1], init) {
      if y == [] {
        assert a[..|a| - 1] == x && x + y == x;
      } else {
        assert a[..|a| - 1] == x + [h] + y[..n];
        SubsequenceDrop(x, h, y[..n], init);
        assert (x + y)[..|x + y| - 1] == x + y[..n];
      }
    } else {
      SubsequenceDrop(x, h, y, init);
    }
  }

  lemma {:induction false} SubsequenceCounts(a: seq<Event>, b: seq<Event>, e: Event)
    requires Subsequence(a, b)
    ensures multiset(a)[e] <= multiset(b)[e]
  {
    if a != [] {
      var m, n := |a| - 1, |b| - 1;
      assert a == a[..m] + [a[m]] && b == b[..n] + [b[n]];
      if a[m] == b[n] && Subsequence(a[..m], b[..n]) {
        SubsequenceCounts(a[..m], b[..n], e);
      } else {
        SubsequenceCounts(a, b[..n], e);
      }
    }
  }

  // ------------------------------------------------------------- what is preserved

  /** The events of `p`, numbered as published. */
  ghost predicate Numbered(p: string, evs: seq<Event>) {
    forall i :: 0 <= i < |evs| ==> evs[i].body.author == p && evs[i].body.nr == i
  }

  ghost predicate Unstamped(q: string, evs: seq<Event>) {
    forall i :: 0 <= i < |evs| ==> evs[i].origin != Some(q)
  }

  /** A selection that comes from what handlers sent alone, or from what was relayed alone,
      went out in that order. */
  ghost predicate InOrder(sel: Selector, aired: seq<Event>, relayed: seq<Event>, sent: seq<Event>) {
    && (Pick(sel, aired) == [] ==> Pick(sel, sent) == Pick(sel, relayed))
    && (Pick(sel, relayed) == [] ==> Pick(sel, sent) == Pick(sel, aired))
  }

  /** What the bus has carried is what handlers sent and what was relayed, mixed. */
  ghost predicate Mixed(aired: seq<Event>, relayed: seq<Event>, sent: seq<Event>) {
    && multiset(sent) == multiset(aired) + multiset(relayed)
    && forall sel :: InOrder(sel, aired, relayed, sent)
  }

  /** What holds of one process alone. */
  ghost predicate ProcOk(p: string, s: Proc) {
    && s.attempted + s.queue == s.published
    && Numbered(p, s.published)
    && Unstamped(p, s.relayed)
    && multiset(s.aired) + multiset(s.pending) == multiset(s.published)
    && Mixed(s.aired, s.relayed, s.sent)
  }

  /** What is on its way through the bridge, oldest first. */
  function Pipe(sel: Selector, queue: seq<Event>, inbox: seq<Message<Note>>, relayed: seq<Event>): seq<Event> {
    Pick(sel, relayed) + Pick(sel, Events(inbox)) + Pick(sel, queue)
  }

  /** What the bridge brings of the published events: all that are selected when it loses
      nothing, otherwise an in-order, duplicate-free part. */
  ghost predicate Carried(sel: Selector, published: seq<Event>, queue: seq<Event>,
                          inbox: seq<Message<Note>>, relayed: seq<Event>, lossless: bool)
  {
    if lossless then Pipe(sel, queue, inbox, relayed) == Pick(sel, published)
    else Subsequence(Pipe(sel, queue, inbox, relayed), Pick(sel, published))
  }

  /** The bridge from `p` to `q`, which takes events with its own stamp for echoes. */
  ghost predicate Between(net: Net, p: string, q: string, lossless: bool)
    requires p in net && q in net
  {
    Carried(Passing(p, q), net[p].published, net[p].queue, net[q].inbox, net[q].relayed, lossless)
  }

  ghost predicate Conserved(net: Net, lossless: bool) {
    && (forall p :: p in net ==> ProcOk(p, net[p]))
    && (forall p, q :: p in net && q in net ==> Between(net, p, q, lossless))
  }

  /** A publish that reaches every subscriber. */
  ghost predicate ReachesAll(step: Step, net: Net) {
    step.Forward? ==> net.Keys <= step.reached
  }

  // --------------------------------------------------------------------- publishing

  lemma {:induction false} MixedSend(aired: seq<Event>, relayed: seq<Event>, sent: seq<Event>, e: Event)
    requires Mixed(aired, relayed, sent)
    ensures Mixed(aired + [e], relayed, sent + [e])
  {
    forall sel ensures InOrder(sel, aired + [e], relayed, sent + [e]) {
      assert InOrder(sel, aired, relayed, sent);
      PickSnoc(sel, aired, e);
      PickSnoc(sel, sent, e);
    }
  }

  /** The first half, at its own process. */
  lemma {:induction false} EnqueueHere(p: string, s: Proc, e: Event)
    requires ProcOk(p, s) && e.body.author == p && e.body.nr == |s.published|
    ensures ProcOk(p, Queueing(s, e))
  {
    Assoc(s.attempted, s.queue, [e]);
  }

  lemma {:induction false} WithoutCounts(evs: seq<Event>, i: nat)
    requires i < |evs|
    ensures multiset(Without(evs, i)) + multiset{evs[i]} == multiset(evs)
  {
    assert evs == evs[..i] + [evs[i]] + evs[i + 1..];
  }

  /** The second half. */
  lemma {:induction false} SendHere(p: string, s: Proc, i: nat)
    requires ProcOk(p, s) && i < |s.pending|
    ensures ProcOk(p, Sending(s, i))
  {
    MixedSend(s.aired, s.relayed, s.sent, s.pending[i]);
    WithoutCounts(s.pending, i);
  }

  lemma {:induction false} EnqueueThere(sel: Selector, published: seq<Event>, queue: seq<Event>,
                                        inbox: seq<Message<Note>>, relayed: seq<Event>, e: Event, lossless: bool)
    requires Carried(sel, published, queue, inbox, relayed, lossless)
    ensures Carried(sel, published + [e], queue + [e], inbox, relayed, lossless)
  {
    PickSnoc(sel, queue, e);
    PickSnoc(sel, published, e);
    if Selects(sel, e) {
      Assoc(Pick(sel, relayed) + Pick(sel, Events(inbox)), Pick(sel, queue), [e]);
      if !lossless { SubsequenceSnoc(Pipe(sel, queue, inbox, relayed), Pick(sel, published), e); }
    }
  }

  lemma {:induction false} EnqueueKeeps(net: Net, p: string, content: string, stamp: Option<string>, lossless: bool)
    requires p in net && Conserved(net, lossless)
    ensures Conserved(Next(net, Enqueue(p, content, stamp)), lossless)
  {
    var s, e := net[p], NewEvent(p, net[p], content, stamp);
    var net' := Next(net, Enqueue(p, content, stamp));
    assert ProcOk(p, s);
    EnqueueHere(p, s, e);
    forall a, b | a in net' && b in net' ensures Between(net', a, b, lossless) {
      assert Between(net, a, b, lossless);
      EnqueuePair(net, p, e, a, b, lossless);
    }
  }

  lemma {:induction false} EnqueuePair(net: Net, p: string, e: Event, a: string, b: string, lossless: bool)
    requires p in net && a in net && b in net && Between(net, a, b, lossless)
    ensures Between(net[p := Queueing(net[p], e)], a, b, lossless)
  {
    if a == p {
      EnqueueThere(Passing(a, b), net[p].published, net[p].queue, net[b].inbox, net[b].relayed, e, lossless);
    }
  }

  lemma {:induction false} SendKeeps(net: Net, p: string, i: nat, lossless: bool)
    requires p in net && i < |net[p].pending| && Conserved(net, lossless)
    ensures Conserved(Next(net, Send(p, i)), lossless)
  {
    var net' := Next(net, Send(p, i));
    assert ProcOk(p, net[p]);
    SendHere(p, net[p], i);
    forall a, b | a in net' && b in net' ensures Between(net', a, b, lossless) {
      assert Between(net, a, b, lossless);
    }
  }

  // --------------------------------------------------------------------- forwarding

  lemma {:induction false} ForwardHere(p: string, s: Proc)
    requires ProcOk(p, s) && s.queue != []
    ensures ProcOk(p, Took(s))
  {
    assert s.queue == [s.queue[0]] + s.queue[1..];
    Assoc(s.attempted, [s.queue[0]], s.queue[1..]);
  }

  /** A message in the inbox is seen by the selectors that select it. */
  lemma {:induction false} GotEvents(sel: Selector, inbox: seq<Message<Note>>, h: Event)
    ensures Pick(sel, Events(inbox + [Wire(h)]))
            == if Selects(sel, h) then Pick(sel, Events(inbox)) + [h] else Pick(sel, Events(inbox))
  {
    EventsConcat(inbox, [Wire(h)]);
    assert [Wire(h)][..0] == [];
    assert Events([Wire(h)]) == [h];
    PickSnoc(sel, Events(inbox), h);
  }

  lemma {:induction false} PickHead(sel: Selector, h: Event, rest: seq<Event>)
    ensures Pick(sel, [h] + rest) == if Selects(sel, h) then [h] + Pick(sel, rest) else Pick(sel, rest)
  {
    PickConcat(sel, [h], rest);
    assert [] + [h] == [h];
    PickSnoc(sel, [], h);
  }

  lemma {:induction false} MoveAcross(x: seq<Event>, y: seq<Event>, h: Event, rest: seq<Event>)
    ensures x + (y + [h]) + rest == x + y + ([h] + rest)
  {
    Assoc(x, y, [h]);
    Assoc(x + y, [h], rest);
  }

  /** From the queue to the inbox, or, when the publish fails, nowhere. */
  lemma {:induction false} ForwardThere(sel: Selector, published: seq<Event>, h: Event, rest: seq<Event>,
                                        inbox: seq<Message<Note>>, relayed: seq<Event>, lossless: bool)
    requires Carried(sel, published, [h] + rest, inbox, relayed, lossless)
    ensures Carried(sel, published, rest, inbox + [Wire(h)], relayed, lossless)
    ensures !lossless ==> Carried(sel, published, rest, inbox, relayed, lossless)
  {
    PickHead(sel, h, rest);
    GotEvents(sel, inbox, h);
    if Selects(sel, h) {
      var x, y, z := Pick(sel, relayed), Pick(sel, Events(inbox)), Pick(sel, rest);
      MoveAcross(x, y, h, z);
      if !lossless {
        Assoc(x + y, [h], z);
        SubsequenceDrop(x + y, h, z, Pick(sel, published));
      }
    }
  }

  /** Somebody else's event does not matter. */
  lemma {:induction false} ForwardElsewhere(sel: Selector, published: seq<Event>, queue: seq<Event>,
                                            inbox: seq<Message<Note>>, relayed: seq<Event>, h: Event, lossless: bool)
    requires Carried(sel, published, queue, inbox, relayed, lossless) && h.body.author != sel.p
    ensures Carried(sel, published, queue, inbox + [Wire(h)], relayed, lossless)
  {
    GotEvents(sel, inbox, h);
  }

  lemma {:induction false} QueueIsOwn(p: string, s: Proc)
    requires ProcOk(p, s) && s.queue != []
    ensures s.queue[0].body.author == p && s.queue[0] in s.published
  {
    assert s.published[|s.attempted|] == s.queue[0];
  }

  /** One pair of processes over a bridge publish of `p`. */
  lemma {:induction false} ForwardPair(net: Net, p: string, reached: set<string>, a: string, b: string, lossless: bool)
    requires p in net && net[p].queue != [] && ProcOk(p, net[p])
    requires lossless ==> net.Keys <= reached
    requires a in net && b in net && Between(net, a, b, lossless)
    ensures Between(Next(net, Forward(p, reached)), a, b, lossless)
  {
    var h, rest := net[p].queue[0], net[p].queue[1..];
    assert net[p].queue == [h] + rest;
    QueueIsOwn(p, net[p]);
    ForwardFields(net, p, reached, a);
    ForwardFields(net, p, reached, b);
    var sel, published, inbox, relayed := Passing(a, b), net[a].published, net[b].inbox, net[b].relayed;
    if a == p {
      ForwardThere(sel, published, h, rest, inbox, relayed, lossless);
    } else {
      ForwardElsewhere(sel, published, net[a].queue, inbox, relayed, h, lossless);
    }
  }

  lemma {:induction false} ForwardKeeps(net: Net, p: string, reached: set<string>, lossless: bool)
    requires p in net && net[p].queue != [] && Conserved(net, lossless)
    requires lossless ==> net.Keys <= reached
    ensures Conserved(Next(net, Forward(p, reached)), lossless)
  {
    var net' := Next(net, Forward(p, reached));
    assert ProcOk(p, net[p]);
    ForwardHere(p, net[p]);
    forall a | a in net' ensures ProcOk(a, net'[a]) { assert ProcOk(a, net[a]); }
    forall a, b | a in net' && b in net' ensures Between(net', a, b, lossless) {
      assert Between(net, a, b, lossless);
      ForwardPair(net, p, reached, a, b, lossless);
    }
  }

  lemma {:induction false} NoiseUnseen(inbox: seq<Message<Note>>)
    ensures Events(inbox + [Junk]) == Events(inbox)
  {
    var junk: seq<Message<Note>> := [Junk];
    EventsConcat(inbox, junk);
    assert junk[..0] == [];
    assert Events(junk) == [];
  }

  lemma {:induction false} NoiseKeeps(net: Net, q: string, lossless: bool)
    requires q in net && Conserved(net, lossless)
    ensures Conserved(Next(net, Noise(q)), lossless)
  {
    var net' := Next(net, Noise(q));
    assert ProcOk(q, net[q]);
    forall a, b | a in net' && b in net' ensures Between(net', a, b, lossless) {
      assert Between(net, a, b, lossless);
      NoisePair(net, q, a, b, lossless);
    }
  }

  lemma {:induction false} NoisePair(net: Net, q: string, a: string, b: string, lossless: bool)
    requires q in net && a in net && b in net && Between(net, a, b, lossless)
    ensures Between(net[q := Got(net[q], Junk)], a, b, lossless)
  {
    NoiseUnseen(net[q].inbox);
  }

  // --------------------------------------------------------------------- delivering

  /** Nothing the subscriber passes on carries the own stamp. */
  lemma {:induction false} NoEcho(q: string, m: Message<Note>)
    ensures Unstamped(q, Accepted(q, [m])) && |Accepted(q, [m])| <= 1
  {
    assert [m][..0] == [];
    if m.Wire? && m.event.origin != Some(q) {
      assert Accepted(q, [m]) == [m.event];
    } else {
      assert Accepted(q, [m]) == [];
    }
  }

  lemma {:induction false} MixedRelay(aired: seq<Event>, relayed: seq<Event>, sent: seq<Event>, passed: seq<Event>)
    requires Mixed(aired, relayed, sent)
    ensures Mixed(aired, relayed + passed, sent + passed)
  {
    forall sel ensures InOrder(sel, aired, relayed + passed, sent + passed) {
      assert InOrder(sel, aired, relayed, sent);
      PickConcat(sel, sent, passed);
      PickConcat(sel, relayed, passed);
    }
  }

  lemma {:induction false} DeliverHere(q: string, b: Proc)
    requires ProcOk(q, b) && b.inbox != []
    ensures ProcOk(q, Relayed(q, b))
  {
    NoEcho(q, b.inbox[0]);
    MixedRelay(b.aired, b.relayed, b.sent, Accepted(q, [b.inbox[0]]));
  }

  /** Only the first message matters to what is passed on and to what remains. */
  lemma {:induction false} HeadMoves(p: string, q: string, inbox: seq<Message<Note>>)
    requires inbox != []
    ensures var sel := Passing(p, q);
            Pick(sel, Accepted(q, [inbox[0]])) + Pick(sel, Events(inbox[1..])) == Pick(sel, Events(inbox))
  {
    var sel, m := Passing(p, q), inbox[0];
    assert inbox == [m] + inbox[1..];
    EventsConcat([m], inbox[1..]);
    PickConcat(sel, Events([m]), Events(inbox[1..]));
    assert [m][..0] == [];
    if m.Wire? {
      assert Events([m]) == [m.event];
      PickSnoc(sel, [], m.event);
      assert [] + [m.event] == [m.event];
    }
  }

  lemma {:induction false} DeliverThere(p: string, q: string, queue: seq<Event>, inbox: seq<Message<Note>>, relayed: seq<Event>)
    requires inbox != []
    ensures Pipe(Passing(p, q), queue, inbox[1..], relayed + Accepted(q, [inbox[0]]))
            == Pipe(Passing(p, q), queue, inbox, relayed)
  {
    var sel, passed := Passing(p, q), Accepted(q, [inbox[0]]);
    PickConcat(sel, relayed, passed);
    HeadMoves(p, q, inbox);
    Assoc(Pick(sel, relayed), Pick(sel, passed), Pick(sel, Events(inbox[1..])));
  }

  lemma {:induction false} DeliverKeeps(net: Net, q: string, lossless: bool)
    requires q in net && net[q].inbox != [] && Conserved(net, lossless)
    ensures Conserved(Next(net, Deliver(q)), lossless)
  {
    var net' := Next(net, Deliver(q));
    assert ProcOk(q, net[q]);
    DeliverHere(q, net[q]);
    forall a, b | a in net' && b in net' ensures Between(net', a, b, lossless) {
      assert Between(net, a, b, lossless);
      DeliverPair(net, q, a, b, lossless);
    }
  }

  lemma {:induction false} DeliverPair(net: Net, q: string, a: string, b: string, lossless: bool)
    requires q in net && net[q].inbox != [] && a in net && b in net && Between(net, a, b, lossless)
    ensures Between(net[q := Relayed(q, net[q])], a, b, lossless)
  {
    if b == q { DeliverThere(a, q, net[a].queue, net[q].inbox, net[q].relayed); }
  }

  lemma {:induction false} StepKeeps(net: Net, step: Step, lossless: bool)
    requires Conserved(net, lossless) && (lossless ==> ReachesAll(step, net))
    ensures Conserved(Next(net, step), lossless)
    ensures Next(net, step).Keys == net.Keys
  {
    match step
    case Enqueue(p, content, stamp) => if p in net { EnqueueKeeps(net, p, content, stamp, lossless); }
    case Send(p, i) => if p in net && i < |net[p].pending| { SendKeeps(net, p, i, lossless); }
    case Forward(p, reached) => if p in net && net[p].queue != [] { ForwardKeeps(net, p, reached, lossless); }
    case Noise(q) => if q in net { NoiseKeeps(net, q, lossless); }
    case Deliver(q) => if q in net && net[q].inbox != [] { DeliverKeeps(net, q, lossless); }
  }

  // -------------------------------------------------------------------- all runs

  /** Processes that have done nothing yet. */
  ghost function Fresh(origins: set<string>): Net {
    map o | o in origins :: IDLE
  }

  /** No publish of the run is lost, if `lossless`. */
  ghost predicate Bridged(origins: set<string>, steps: seq<Step>, lossless: bool) {
    lossless ==> forall i :: 0 <= i < |steps| ==> ReachesAll(steps[i], Fresh(origins))
  }

  /** Conservation, whatever the stamps and whatever is lost: each process sends each of its own
      events once on its own bus and takes it once for the bridge; what the
      bridge brings to any bus, the own one included, is an in-order, duplicate-free part of
      the events not stamped with that bus's origin. With a bridge that loses nothing it is all
      of them: relayed there, in the inbox there, or still queued here. */
  lemma {:induction false} Conservation(origins: set<string>, steps: seq<Step>, lossless: bool)
    requires Bridged(origins, steps, lossless)
    ensures Exec(Fresh(origins), steps).Keys == origins
    ensures Conserved(Exec(Fresh(origins), steps), lossless)
  {
    var net := Exec(Fresh(origins), steps);
    if steps != [] {
      var n := |steps| - 1;
      Conservation(origins, steps[..n], lossless);
      assert ReachesAll(steps[n], Exec(Fresh(origins), steps[..n])) <==> ReachesAll(steps[n], Fresh(origins));
      StepKeeps(Exec(Fresh(origins), steps[..n]), steps[n], lossless);
    } else {
      assert forall sel :: InOrder(sel, [], [], []);
    }
  }

  // ------------------------------------------------------------ how often and where

  /** How often an event of `p` goes out on the bus of `q` in the end: once on the own bus as it
      is published, and once on every bus that does not take it for an echo. */
  function Copies(e: Event, q: string): nat {
    (if e.body.author == q then 1 else 0) + (if e.origin == Some(q) then 0 else 1)
  }

  lemma {:induction false} CountedOnce(p: string, evs: seq<Event>, k: nat)
    requires Numbered(p, evs) && k < |evs|
    ensures multiset(evs)[evs[k]] == 1
  {
    var n := |evs| - 1;
    assert evs == evs[..n] + [evs[n]];
    if k < n {
      assert evs[..n][k] == evs[k];
      CountedOnce(p, evs[..n], k);
    } else {
      assert evs[k] !in evs[..n];
      assert evs[k] !in multiset(evs[..n]);
    }
  }

  lemma {:induction false} AbsentCount(evs: seq<Event>, e: Event)
    requires forall i :: 0 <= i < |evs| ==> evs[i] != e
    ensures multiset(evs)[e] == 0
  {
    assert e !in evs;
  }

  /** The local part of the count: one, once the handler has sent it. */
  lemma {:induction false} AiredCount(net: Net, lossless: bool, p: string, q: string, k: nat)
    requires Conserved(net, lossless) && p in net && q in net && k < |net[p].published|
    ensures var e := net[p].published[k];
            multiset(net[q].aired)[e] == if p == q && e !in net[p].pending then 1 else 0
  {
    var e := net[p].published[k];
    assert ProcOk(p, net[p]) && ProcOk(q, net[q]);
    if p == q {
      CountedOnce(p, net[p].published, k);
      assert e in net[p].pending <==> multiset(net[p].pending)[e] > 0;
    } else {
      AbsentCount(net[q].published, e);
    }
  }

  /** The part that came through the bridge. */
  lemma {:induction false} RelayedCount(net: Net, lossless: bool, p: string, q: string, k: nat)
    requires Conserved(net, lossless) && p in net && q in net && k < |net[p].published|
    ensures var e := net[p].published[k];
            var all := if e.origin == Some(q) then 0 else 1;
            && multiset(net[q].relayed)[e] <= all
            && (lossless && net[p].queue == [] && net[q].inbox == [] ==> multiset(net[q].relayed)[e] == all)
  {
    var a, b := net[p], net[q];
    var e, sel := a.published[k], Passing(p, q);
    assert ProcOk(p, a) && ProcOk(q, b) && Between(net, p, q, lossless);
    if e.origin == Some(q) {
      AbsentCount(b.relayed, e);
    } else {
      CountedOnce(p, a.published, k);
      PickCounts(sel, a.published, e);
      PickCounts(sel, b.relayed, e);
      if !lossless { SubsequenceCounts(Pipe(sel, a.queue, b.inbox, b.relayed), Pick(sel, a.published), e); }
    }
  }

  /** Over every run and at every moment, an event has gone out on a bus at most as often as
      `Copies` says, and on its own at least once, when its handler is done; with a lossless
      bridge, once its publisher's queue and the inbox are empty, exactly as often. */
  lemma {:induction false} CopiesExactly(origins: set<string>, steps: seq<Step>, lossless: bool, p: string, q: string, k: nat)
    requires Bridged(origins, steps, lossless) && p in origins && q in origins
    requires var net := Exec(Fresh(origins), steps); p in net && q in net && k < |net[p].published|
    ensures var net := Exec(Fresh(origins), steps);
            var e := net[p].published[k];
            && e.body.author == p
            && multiset(net[q].sent)[e] <= Copies(e, q)
            && (p == q && e !in net[p].pending ==> multiset(net[q].sent)[e] >= 1)
            && (lossless && e !in net[p].pending && net[p].queue == [] && net[q].inbox == [] ==>
                 multiset(net[q].sent)[e] == Copies(e, q))
  {
    var net := Exec(Fresh(origins), steps);
    Conservation(origins, steps, lossless);
    assert ProcOk(p, net[p]) && ProcOk(q, net[q]);
    AiredCount(net, lossless, p, q, k);
    RelayedCount(net, lossless, p, q, k);
  }

  ghost predicate Quiet(net: Net) {
    forall q :: q in net ==> net[q].pending == [] && net[q].queue == [] && net[q].inbox == []
  }

  /** Once a lossless network is quiet, a published event has gone out exactly once on every bus
      if and only if it carries its publisher's stamp. One with another stamp has gone out twice
      on its own bus, and never on the bus of the process whose stamp it carries. */
  lemma {:induction false} OnceEverywhereExactly(origins: set<string>, steps: seq<Step>, p: string, k: nat)
    requires Bridged(origins, steps, true) && p in origins
    requires var net := Exec(Fresh(origins), steps);
             net.Keys == origins && Quiet(net) && k < |net[p].published|
    ensures var net := Exec(Fresh(origins), steps);
            var e := net[p].published[k];
            && ((forall q :: q in net ==> multiset(net[q].sent)[e] == 1) <==> e.origin == Some(p))
            && (e.origin != Some(p) ==> multiset(net[p].sent)[e] == 2)
            && (forall q :: q in net && q != p && e.origin == Some(q) ==> multiset(net[q].sent)[e] == 0)
  {
    var net := Exec(Fresh(origins), steps);
    forall q | q in net
      ensures net[p].published[k].body.author == p
      ensures multiset(net[q].sent)[net[p].published[k]] == Copies(net[p].published[k], q)
    {
      CopiesExactly(origins, steps, true, p, q, k);
    }
  }

  /** The smallest such run: published at `p` with the stamp of `q`. */
  lemma {:induction false} ForeignStampMisrouted(p: string, q: string, content: string)
    requires p != q
    ensures var net := Next(Next(Next(Next(Next(Fresh({p, q}), Enqueue(p, content, Some(q))), Send(p, 0)),
                                      Forward(p, {p, q})), Deliver(q)), Deliver(p));
            var e := AuthEvent(Note(p, 0, content), Some(q));
            net.Keys == {p, q} && net[p].published == [e] && net[p].sent == [e, e] && net[q].sent == []
  {
    ForeignStampForwarded(p, q, content);
    var net := Next(Next(Next(Fresh({p, q}), Enqueue(p, content, Some(q))), Send(p, 0)), Forward(p, {p, q}));
    DeliveredTwice(net, p, q, AuthEvent(Note(p, 0, content), Some(q)));
  }

  /** After its first steps the event is in both inboxes. */
  lemma {:induction false} ForeignStampForwarded(p: string, q: string, content: string)
    requires p != q
    ensures var net := Next(Next(Next(Fresh({p, q}), Enqueue(p, content, Some(q))), Send(p, 0)), Forward(p, {p, q}));
            var e := AuthEvent(Note(p, 0, content), Some(q));
            && net.Keys == {p, q} && net[p].published == [e]
            && net[p].sent == [e] && net[p].inbox == [Wire(e)] && net[q].sent == [] && net[q].inbox == [Wire(e)]
  {
    var e := AuthEvent(Note(p, 0, content), Some(q));
    PublishMatchesBus(Fresh({p, q}), p, content, Some(q));
    var net := Next(Next(Fresh({p, q}), Enqueue(p, content, Some(q))), Send(p, 0));
    assert net[p].sent == [e] && net[p].queue == [e] && net[p].inbox == [] && net[q] == IDLE;
    ForwardFields(net, p, {p, q}, p);
    ForwardFields(net, p, {p, q}, q);
  }

  /** Delivered to `q` it is an echo, delivered to `p` it is not. */
  lemma {:induction false} DeliveredTwice(net: Net, p: string, q: string, e: Event)
    requires p != q && p in net && q in net && e.origin == Some(q)
    requires net[p].inbox == [Wire(e)] && net[q].inbox == [Wire(e)]
    ensures var net' := Next(Next(net, Deliver(q)), Deliver(p));
            && net'.Keys == net.Keys && net'[p].published == net[p].published
            && net'[p].sent == net[p].sent + [e] && net'[q].sent == net[q].sent
  {
    EchoOrNot(q, e);
    EchoOrNot(p, e);
  }

  lemma {:induction false} EchoOrNot(q: string, e: Event)
    ensures Accepted(q, [Wire(e)]) == if e.origin == Some(q) then [] else [e]
  {
    assert [Wire(e)][..0] == [];
  }

  // ------------------------------------------------------------- own stamps only

  /** Handlers publish events that carry no stamp (or their own). */
  ghost predicate OwnStamp(step: Step) {
    step.Enqueue? ==> step.stamp == None || step.stamp == Some(step.p)
  }

  ghost predicate AllStamped(p: string, evs: seq<Event>) {
    forall i :: 0 <= i < |evs| ==> evs[i].origin == Some(p)
  }

  /** Every event on the way, or sent on, was published by the process it names. */
  ghost predicate Known(net: Net, evs: seq<Event>) {
    forall i :: 0 <= i < |evs| ==> evs[i].body.author in net && evs[i] in net[evs[i].body.author].published
  }

  ghost predicate KnownAt(net: Net, s: Proc) {
    Known(net, s.relayed) && Known(net, Events(s.inbox))
  }

  ghost predicate AllKnown(net: Net) {
    forall q :: q in net ==> KnownAt(net, net[q])
  }

  /** Nothing published before is forgotten. */
  ghost predicate Grows(net: Net, net': Net) {
    net'.Keys == net.Keys && forall p :: p in net ==> net[p].published <= net'[p].published
  }

  lemma {:induction false} KnownLater(net: Net, net': Net, s: Proc)
    requires KnownAt(net, s) && Grows(net, net')
    ensures KnownAt(net', s)
  {
    forall p, e | p in net && e in net[p].published ensures e in net'[p].published {
      var i :| 0 <= i < |net[p].published| && net[p].published[i] == e;
      assert net'[p].published[i] == e;
    }
  }

  lemma {:induction false} AcceptedKnown(net: Net, q: string, m: Message<Note>)
    requires Known(net, Events([m]))
    ensures Known(net, Accepted(q, [m]))
  {
    assert [m][..0] == [];
    if m.Wire? && m.event.origin != Some(q) {
      assert Accepted(q, [m]) == [m.event] && Events([m]) == [m.event];
    }
  }

  lemma {:induction false} KnownConcat(net: Net, a: seq<Event>, b: seq<Event>)
    ensures Known(net, a + b) <==> Known(net, a) && Known(net, b)
  {
    if Known(net, a + b) {
      forall i | 0 <= i < |a| ensures a[i] == (a + b)[i] {}
      forall i | 0 <= i < |b| ensures b[i] == (a + b)[|a| + i] {}
    }
  }

  /** The inbox after a forward or a noise step. */
  lemma {:induction false} GotKnown(net: Net, s: Proc, m: Message<Note>)
    requires Known(net, Events(s.inbox))
    requires m.Wire? ==> Known(net, [m.event])
    ensures Known(net, Events(Got(s, m).inbox))
  {
    EventsConcat(s.inbox, [m]);
    assert [m][..0] == [];
    assert Events([m]) == if m.Wire? then [m.event] else [];
    KnownConcat(net, Events(s.inbox), Events([m]));
  }

  lemma {:induction false} RelayKnown(net: Net, q: string, s: Proc)
    requires s.inbox != [] && Known(net, s.relayed) && Known(net, Events(s.inbox))
    ensures Known(net, Relayed(q, s).relayed) && Known(net, Events(Relayed(q, s).inbox))
  {
    var m, rest := s.inbox[0], s.inbox[1..];
    assert s.inbox == [m] + rest;
    EventsConcat([m], rest);
    KnownConcat(net, Events([m]), Events(rest));
    AcceptedKnown(net, q, m);
    KnownConcat(net, s.relayed, Accepted(q, [m]));
  }

  lemma {:induction false} StepGrows(net: Net, step: Step)
    ensures Grows(net, Next(net, step))
  {}

  lemma {:induction false} ForwardKnownAt(net: Net, p: string, reached: set<string>, q: string)
    requires p in net && net[p].queue != [] && q in net && ProcOk(p, net[p])
    requires KnownAt(Next(net, Forward(p, reached)), net[q])
    ensures KnownAt(Next(net, Forward(p, reached)), Next(net, Forward(p, reached))[q])
  {
    var net', h := Next(net, Forward(p, reached)), net[p].queue[0];
    QueueIsOwn(p, net[p]);
    ForwardFields(net, p, reached, p);
    ForwardFields(net, p, reached, q);
    GotKnown(net', net[q], Wire(h));
  }

  /** What a step does to one process keeps it knowing only what was published. */
  lemma {:induction false} StepKnownAt(net: Net, step: Step, q: string)
    requires Conserved(net, false) && q in net && KnownAt(Next(net, step), net[q])
    ensures q in Next(net, step) && KnownAt(Next(net, step), Next(net, step)[q])
  {
    var net' := Next(net, step);
    match step
    case Enqueue(_, _, _) =>
    case Send(_, _) =>
    case Forward(p, reached) =>
      if p in net && net[p].queue != [] {
        assert ProcOk(p, net[p]);
        ForwardKnownAt(net, p, reached, q);
      }
    case Noise(_) => GotKnown(net', net[q], Junk);
    case Deliver(_) => if net[q].inbox != [] { RelayKnown(net', q, net[q]); }
  }

  lemma {:induction false} StepKnown(net: Net, step: Step)
    requires AllKnown(net) && Conserved(net, false)
    ensures AllKnown(Next(net, step))
  {
    StepGrows(net, step);
    forall q | q in net ensures KnownAt(Next(net, step), Next(net, step)[q]) {
      KnownLater(net, Next(net, step), net[q]);
      StepKnownAt(net, step, q);
    }
  }

  /** Over every run, with any stamps, nothing is relayed or under way that its author did not
      publish. */
  lemma {:induction false} RunKnown(origins: set<string>, steps: seq<Step>)
    ensures AllKnown(Exec(Fresh(origins), steps))
  {
    if steps != [] {
      var n := |steps| - 1;
      RunKnown(origins, steps[..n]);
      Conservation(origins, steps[..n], false);
      StepKnown(Exec(Fresh(origins), steps[..n]), steps[n]);
    }
  }

  ghost predicate OwnStamped(net: Net) {
    forall q :: q in net ==> AllStamped(q, net[q].published)
  }

  lemma {:induction false} StepStamped(net: Net, step: Step)
    requires OwnStamp(step) && OwnStamped(net)
    ensures OwnStamped(Next(net, step))
  {
    forall q | q in Next(net, step) ensures AllStamped(q, Next(net, step)[q].published) {
      assert AllStamped(q, net[q].published);
    }
  }

  lemma {:induction false} RunStamped(origins: set<string>, steps: seq<Step>)
    requires forall i :: 0 <= i < |steps| ==> OwnStamp(steps[i])
    ensures OwnStamped(Exec(Fresh(origins), steps))
  {
    if steps != [] {
      var n := |steps| - 1;
      RunStamped(origins, steps[..n]);
      StepStamped(Exec(Fresh(origins), steps[..n]), steps[n]);
    }
  }

  lemma {:induction false} KnownStamped(net: Net, p: string, evs: seq<Event>)
    requires OwnStamped(net) && Known(net, evs)
    ensures forall e :: e in evs && e.body.author == p ==> e.origin == Some(p)
  {
    forall e | e in evs && e.body.author == p ensures e.origin == Some(p) {
      var i :| 0 <= i < |evs| && evs[i] == e;
      assert e in net[p].published && AllStamped(p, net[p].published);
    }
  }

  lemma {:induction false} AiredIsOwn(p: string, s: Proc)
    requires ProcOk(p, s)
    ensures forall e :: e in s.aired ==> e in s.published && e.body.author == p
  {
    forall e | e in s.aired ensures e in s.published && e.body.author == p {
      assert e in multiset(s.aired) && e in multiset(s.published);
      assert e in s.published;
    }
  }

  /** With own stamps, the bus of `q` shows the events of `p` as the bridge brought them, and
      its own as its handlers sent them. */
  lemma {:induction false} SentIs(net: Net, p: string, q: string, lossless: bool)
    requires Conserved(net, lossless) && AllKnown(net) && OwnStamped(net) && p in net && q in net
    ensures p == q ==> Pick(By(p), net[q].sent) == net[p].aired
    ensures p != q ==> Pick(By(p), net[q].sent) == Pick(Passing(p, q), net[q].relayed)
  {
    var b := net[q];
    assert ProcOk(p, net[p]) && ProcOk(q, b) && KnownAt(net, b);
    KnownStamped(net, p, b.relayed);
    AiredIsOwn(q, b);
    assert InOrder(By(p), b.aired, b.relayed, b.sent);
    if p == q {
      forall e | e in b.relayed ensures !Selects(By(p), e) {
        var i :| 0 <= i < |b.relayed| && b.relayed[i] == e;
      }
      PickNone(By(p), b.relayed);
      PickAll(By(p), b.aired);
    } else {
      PickNone(By(p), b.aired);
      PickSame(By(p), Passing(p, q), b.relayed);
    }
  }

  /** With own stamps and a lossless bridge, for two processes: what the bus of `q` has carried
      of `p`, what is in the inbox of `q` and what is queued at `p` is what `p` published; and
      with publishes lost it is an in-order, duplicate-free part. On its own bus `p` has sent
      exactly what its handlers sent, each published event once, if not still pending. */
  lemma {:induction false} OwnStampConservation(origins: set<string>, steps: seq<Step>, lossless: bool, p: string, q: string)
    requires Bridged(origins, steps, lossless) && p in origins && q in origins
    requires forall i :: 0 <= i < |steps| ==> OwnStamp(steps[i])
    ensures var net := Exec(Fresh(origins), steps);
            && net.Keys == origins
            && (p == q ==>
                 && Pick(By(p), net[q].sent) == net[p].aired
                 && multiset(net[p].aired) + multiset(net[p].pending) == multiset(net[p].published))
            && (p != q ==>
                 var all := Pick(By(p), net[q].sent) + Pick(By(p), Events(net[q].inbox)) + net[p].queue;
                 if lossless then all == net[p].published else Subsequence(all, net[p].published))
  {
    var net := Exec(Fresh(origins), steps);
    Conservation(origins, steps, lossless);
    RunKnown(origins, steps);
    RunStamped(origins, steps);
    SentIs(net, p, q, lossless);
    assert ProcOk(p, net[p]);
    if p != q { PipeIs(net, p, q, lossless); }
  }

  lemma {:induction false} PipeIs(net: Net, p: string, q: string, lossless: bool)
    requires Conserved(net, lossless) && AllKnown(net) && OwnStamped(net) && p in net && q in net && p != q
    ensures var all := Pick(Passing(p, q), net[q].relayed) + Pick(By(p), Events(net[q].inbox)) + net[p].queue;
            if lossless then all == net[p].published else Subsequence(all, net[p].published)
  {
    var a, b, sel := net[p], net[q], Passing(p, q);
    assert ProcOk(p, a) && Between(net, p, q, lossless) && AllStamped(p, a.published) && KnownAt(net, b);
    KnownStamped(net, p, Events(b.inbox));
    PickSame(By(p), sel, Events(b.inbox));
    PickAll(sel, a.published);
    forall e | e in a.queue ensures e in a.published { assert e in a.attempted + a.queue; }
    PickAll(sel, a.queue);
  }

  // ------------------------------------------------------------------ own-bus order

  /** Every effective send of `p` so far took the oldest pending event. */
  ghost predicate InTurn(origins: set<string>, steps: seq<Step>, p: string) {
    steps == [] ||
    (var init, last := steps[..|steps| - 1], steps[|steps| - 1];
     var net := Exec(Fresh(origins), init);
     && InTurn(origins, init, p)
     && (last.Send? && last.p == p && p in net && last.i < |net[p].pending| ==> last.i == 0))
  }

  /** Other steps leave a process's publishing alone. */
  lemma {:induction false} PublishingKept(net: Net, step: Step, p: string)
    requires p in net && !(step.Enqueue? && step.p == p) && !(step.Send? && step.p == p)
    ensures var net' := Next(net, step);
            && p in net' && net'[p].published == net[p].published
            && net'[p].pending == net[p].pending && net'[p].aired == net[p].aired
  {}

  lemma {:induction false} SendInTurn(p: string, s: Proc, i: nat)
    requires ProcOk(p, s) && i < |s.pending|
    ensures s.aired + s.pending == s.published ==>
              (Sending(s, i).aired <= s.published <==> i == 0)
    ensures s.aired + s.pending == s.published && i == 0 ==>
              Sending(s, i).aired + Sending(s, i).pending == s.published
    ensures !(s.aired <= s.published) ==> !(Sending(s, i).aired <= s.published)
  {
    var t := Sending(s, i);
    if s.aired + s.pending == s.published {
      assert s.published[|s.aired|] == s.pending[0] && s.published[|s.aired| + i] == s.pending[i];
      assert t.aired[|s.aired|] == s.pending[i];
      if i == 0 { assert t.aired == s.published[..|s.aired| + 1]; }
    }
    if t.aired <= s.published { assert s.aired == t.aired[..|s.aired|] == s.published[..|s.aired|]; }
  }

  lemma {:induction false} EnqueueInTurn(s: Proc, e: Event)
    requires |s.aired| <= |s.published|
    ensures Queueing(s, e).aired <= Queueing(s, e).published <==> s.aired <= s.published
    ensures s.aired + s.pending == s.published ==>
              Queueing(s, e).aired + Queueing(s, e).pending == Queueing(s, e).published
  {
    assert (s.published + [e])[..|s.aired|] == s.published[..|s.aired|];
    Assoc(s.aired, s.pending, [e]);
  }

  lemma {:induction false} AiredBound(p: string, s: Proc)
    requires ProcOk(p, s)
    ensures |s.aired| <= |s.published|
  {
    assert |multiset(s.aired)| + |multiset(s.pending)| == |multiset(s.published)|;
  }

  /** Over every run, the events of `p` go out on its own bus in the order in which they were
      queued exactly when no handler sends before an older one is done; then what is aired and
      what is pending is what was published, in order. */
  lemma {:induction false} OwnOrderExactly(origins: set<string>, steps: seq<Step>, p: string)
    requires p in origins
    ensures var net := Exec(Fresh(origins), steps);
            && net.Keys == origins
            && (net[p].aired <= net[p].published <==> InTurn(origins, steps, p))
            && (InTurn(origins, steps, p) ==> net[p].aired + net[p].pending == net[p].published)
  {
    Conservation(origins, steps, false);
    if steps != [] {
      var init, last := steps[..|steps| - 1], steps[|steps| - 1];
      var net := Exec(Fresh(origins), init);
      OwnOrderExactly(origins, init, p);
      Conservation(origins, init, false);
      assert ProcOk(p, net[p]);
      if last.Enqueue? && last.p == p {
        AiredBound(p, net[p]);
        EnqueueInTurn(net[p], NewEvent(p, net[p], last.content, last.stamp));
      } else if last.Send? && last.p == p {
        if last.i < |net[p].pending| { SendInTurn(p, net[p], last.i); }
      } else {
        PublishingKept(net, last, p);
      }
    }
  }

  /** Two handlers side by side: the second sends before the first. */
  lemma {:induction false} SecondSendsFirst(p: string, a: string, b: string)
    ensures var net := Next(Next(Next(Next(Fresh({p}), Enqueue(p, a, None)), Enqueue(p, b, None)), Send(p, 1)), Send(p, 0));
            var x, y := AuthEvent(Note(p, 0, a), Some(p)), AuthEvent(Note(p, 1, b), Some(p));
            net.Keys == {p} && net[p].queue == [x, y] && net[p].sent == [y, x]
  {
    var x, y := AuthEvent(Note(p, 0, a), Some(p)), AuthEvent(Note(p, 1, b), Some(p));
    var s1 := Queueing(IDLE, x);
    assert NewEvent(p, IDLE, a, None) == x && NewEvent(p, s1, b, None) == y;
    var s2 := Queueing(s1, y);
    assert s2.pending == [x, y] && Without(s2.pending, 1) == [x];
    var s3 := Sending(s2, 1);
    assert s3.pending == [x] && s3.sent == [y];
  }
}
