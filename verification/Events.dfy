/** Tenant events: the event type, subscription filters, the unbounded channels behind
    subscriptions, the broadcaster inside every tenant, and the receiving end. */
module Events {
  import opened Keyed

  datatype Event =
    | RecordInserted(id: nat, shareable: bool)
    | RecordDeleted(id: nat)
    | SagaRebuilt(tenant: seq<bv8>, builtAt: int)
    | HansaMemberJoined(tenant: seq<bv8>)
    | HansaMemberLeft(tenant: seq<bv8>)

  datatype EventFilter = EventFilter(recordInserted: bool, recordDeleted: bool, sagaRebuilt: bool,
                                     hansaMemberJoined: bool, hansaMemberLeft: bool)
  {
    predicate Accepts(e: Event) {
      match e
      case RecordInserted(_, _) => recordInserted
      case RecordDeleted(_) => recordDeleted
      case SagaRebuilt(_, _) => sagaRebuilt
      case HansaMemberJoined(_) => hansaMemberJoined
      case HansaMemberLeft(_) => hansaMemberLeft
    }
  }

  // ---------------------------------------------------------------- filtering

  /** The subsequence of `q` that passes `f`. */
  function Accepted(q: seq<Event>, f: EventFilter): seq<Event> {
    if q == [] then []
    else (if f.Accepts(q[0]) then [q[0]] else []) + Accepted(q[1..], f)
  }

  // ---------------------------------------------------------------- receiving

  datatype Pull = Got(event: Event) | Empty | Disconnected

  /** Index of the first queued event that passes the filter, or the queue length. */
  function FirstAccepted(q: seq<Event>, f: EventFilter): (p: nat)
    ensures p <= |q|
    ensures p < |q| ==> f.Accepts(q[p])
    ensures forall i :: 0 <= i < p ==> !f.Accepts(q[i])
  {
    if q == [] || f.Accepts(q[0]) then 0 else 1 + FirstAccepted(q[1..], f)
  }

  /** What one `try_recv` answers on queue `q`, and what it leaves queued. */
  function PullResult(q: seq<Event>, f: EventFilter, senderAlive: bool): Pull {
    var p := FirstAccepted(q, f);
    if p < |q| then Got(q[p]) else if senderAlive then Empty else Disconnected
  }

  function PullRest(q: seq<Event>, f: EventFilter): seq<Event> {
    var p := FirstAccepted(q, f);
    if p < |q| then q[p + 1..] else []
  }

  /** The events a consumer sees by calling `try_recv` until it stops answering with one. */
  function PullAll(q: seq<Event>, f: EventFilter): seq<Event>
    decreases |q|
  {
    match PullResult(q, f, true)
    case Got(e) => [e] + PullAll(PullRest(q, f), f)
    case _ => []
  }

  lemma {:induction false} FilterHead(q: seq<Event>, f: EventFilter)
    ensures var p := FirstAccepted(q, f);
            Accepted(q, f) == if p < |q| then [q[p]] + Accepted(q[p + 1..], f) else []
  {
    if q != [] && !f.Accepts(q[0]) {
      FilterHead(q[1..], f);
      var p := FirstAccepted(q[1..], f);
      if p < |q[1..]| {
        assert q[1..][p + 1..] == q[p + 2..];
      }
    }
  }

  /** Repeated pulls return exactly the filtered subsequence, in order, whatever the filter. */
  lemma {:induction false} PullAllIsFilter(q: seq<Event>, f: EventFilter)
    ensures PullAll(q, f) == Accepted(q, f)
    decreases |q|
  {
    FilterHead(q, f);
    var p := FirstAccepted(q, f);
    if p < |q| {
      assert PullResult(q, f, true) == Got(q[p]) && PullRest(q, f) == q[p + 1..];
      PullAllIsFilter(q[p + 1..], f);
    } else {
      assert !PullResult(q, f, true).Got?;
    }
  }

  /** `Empty` or `Disconnected` is answered exactly when nothing queued passes the filter. */
  lemma NoPullMeansNothingPasses(q: seq<Event>, f: EventFilter, senderAlive: bool)
    ensures PullResult(q, f, senderAlive).Got? <==> Accepted(q, f) != []
    ensures !PullResult(q, f, senderAlive).Got? ==>
              PullRest(q, f) == [] && (PullResult(q, f, senderAlive).Disconnected? <==> !senderAlive)
  {
    FilterHead(q, f);
  }

  // ---------------------------------------------------------------- what a filter lets through

  const ALL := EventFilter(true, true, true, true, true)

  const NONE := EventFilter(false, false, false, false, false)

  /** The events of `q` that `kind` holds of, in order. */
  function OfKind(q: seq<Event>, kind: Event -> bool): seq<Event> {
    if q == [] then [] else (if kind(q[0]) then [q[0]] else []) + OfKind(q[1..], kind)
  }

  lemma {:induction false} AcceptedIsOfKind(q: seq<Event>, f: EventFilter, kind: Event -> bool)
    requires forall e :: f.Accepts(e) <==> kind(e)
    ensures Accepted(q, f) == OfKind(q, kind)
  {
    if q == [] {
    } else {
      AcceptedIsOfKind(q[1..], f, kind);
    }
  }

  /** A subscriber that allows one kind of event is handed exactly the queued events of that kind, in
      order. */
  lemma OneKindAllowed(q: seq<Event>)
    ensures PullAll(q, NONE.(recordInserted := true)) == OfKind(q, (e: Event) => e.RecordInserted?)
    ensures PullAll(q, NONE.(recordDeleted := true)) == OfKind(q, (e: Event) => e.RecordDeleted?)
    ensures PullAll(q, NONE.(sagaRebuilt := true)) == OfKind(q, (e: Event) => e.SagaRebuilt?)
    ensures PullAll(q, NONE.(hansaMemberJoined := true)) == OfKind(q, (e: Event) => e.HansaMemberJoined?)
    ensures PullAll(q, NONE.(hansaMemberLeft := true)) == OfKind(q, (e: Event) => e.HansaMemberLeft?)
  {
    AllowsOnly(q, NONE.(recordInserted := true), (e: Event) => e.RecordInserted?);
    AllowsOnly(q, NONE.(recordDeleted := true), (e: Event) => e.RecordDeleted?);
    AllowsOnly(q, NONE.(sagaRebuilt := true), (e: Event) => e.SagaRebuilt?);
    AllowsOnly(q, NONE.(hansaMemberJoined := true), (e: Event) => e.HansaMemberJoined?);
    AllowsOnly(q, NONE.(hansaMemberLeft := true), (e: Event) => e.HansaMemberLeft?);
  }

  lemma AllowsOnly(q: seq<Event>, f: EventFilter, kind: Event -> bool)
    requires forall e :: f.Accepts(e) <==> kind(e)
    ensures PullAll(q, f) == OfKind(q, kind)
  {
    PullAllIsFilter(q, f);
    AcceptedIsOfKind(q, f, kind);
  }

  lemma {:induction false} EveryKind(q: seq<Event>, b: bool)
    ensures OfKind(q, (_: Event) => b) == if b then q else []
  {
    if q == [] {
    } else {
      EveryKind(q[1..], b);
    }
  }

  /** `ALL` is handed the whole queue, `NONE` nothing. */
  lemma AllAndNone(q: seq<Event>)
    ensures PullAll(q, ALL) == q && PullAll(q, NONE) == []
  {
    AllowsOnly(q, ALL, (_: Event) => true);
    EveryKind(q, true);
    AllowsOnly(q, NONE, (_: Event) => false);
    EveryKind(q, false);
  }

  /** Any filter: what is handed out is what is queued and of an allowed kind. */
  lemma PulledExactlyWhen(q: seq<Event>, f: EventFilter, e: Event)
    ensures e in PullAll(q, f) <==>
              e in q
              && ((e.RecordInserted? && f.recordInserted) || (e.RecordDeleted? && f.recordDeleted)
                  || (e.SagaRebuilt? && f.sagaRebuilt) || (e.HansaMemberJoined? && f.hansaMemberJoined)
                  || (e.HansaMemberLeft? && f.hansaMemberLeft))
  {
    PullAllIsFilter(q, f);
    AcceptedMembers(q, f, e);
  }

  lemma {:induction false} AcceptedMembers(q: seq<Event>, f: EventFilter, e: Event)
    ensures e in Accepted(q, f) <==> e in q && f.Accepts(e)
  {
    if q == [] {
    } else {
      AcceptedMembers(q[1..], f, e);
      assert e in q <==> e == q[0] || e in q[1..];
    }
  }

  // ---------------------------------------------------------------- channels

  /** An unbounded channel: sending fails exactly when the receiver is gone. */
  class Channel {
    var queue: seq<Event>
    var receiverAlive: bool
    var senderAlive: bool

    constructor ()
      ensures queue == [] && receiverAlive && senderAlive
    {
      queue, receiverAlive, senderAlive := [], true, true;
    }

    method Send(e: Event) returns (ok: bool)
      modifies this`queue
      ensures ok == receiverAlive
      ensures queue == if ok then old(queue) + [e] else old(queue)
    {
      ok := receiverAlive;
      if ok {
        queue := queue + [e];
      }
    }
  }

  /** The receiving end of a subscription. */
  class EventStream {
    const rx: Channel
    const filter: EventFilter

    constructor (rx: Channel, filter: EventFilter)
      ensures this.rx == rx && this.filter == filter
    {
      this.rx, this.filter := rx, filter;
    }

    method TryRecv() returns (r: Pull)
      modifies rx`queue
      ensures r == PullResult(old(rx.queue), filter, rx.senderAlive)
      ensures rx.queue == PullRest(old(rx.queue), filter)
    {
      ghost var q := rx.queue;
      ghost var skipped := 0;
      while true
        invariant skipped <= |q| && rx.queue == q[skipped..]
        invariant forall i :: 0 <= i < skipped ==> !filter.Accepts(q[i])
        decreases |rx.queue|
      {
        if rx.queue == [] {
          return if rx.senderAlive then Empty else Disconnected;
        }
        var e := rx.queue[0];
        rx.queue := rx.queue[1..];
        skipped := skipped + 1;
        if filter.Accepts(e) {
          assert FirstAccepted(q, filter) == skipped - 1;
          return Got(e);
        }
      }
    }
  }

  // ---------------------------------------------------------------- broadcasting

  /** The channels of `cs` whose receiver still exists, in order. */
  ghost function LiveOnes(cs: seq<Channel>): seq<Channel>
    reads (set c: Channel | c in cs)`receiverAlive
  {
    if cs == [] then []
    else LiveOnes(cs[..|cs| - 1]) + (if cs[|cs| - 1].receiverAlive then [cs[|cs| - 1]] else [])
  }

  lemma {:induction false} LiveOnesMembers(cs: seq<Channel>)
    requires forall i, j :: 0 <= i < j < |cs| ==> cs[i] != cs[j]
    ensures forall c :: c in LiveOnes(cs) <==> c in cs && c.receiverAlive
    ensures forall i, j :: 0 <= i < j < |LiveOnes(cs)| ==> LiveOnes(cs)[i] != LiveOnes(cs)[j]
  {
    if cs == [] {
    } else {
      var init := cs[..|cs| - 1];
      LiveOnesMembers(init);
      assert cs == init + [cs[|cs| - 1]];
      assert cs[|cs| - 1] !in init;
    }
  }

  /** The subscriber list a tenant keeps behind its own lock. */
  class Broadcaster {
    var subscribers: seq<Channel>

    predicate Valid()
      reads this
    {
      forall i, j :: 0 <= i < j < |subscribers| ==> subscribers[i] != subscribers[j]
    }

    constructor ()
      ensures Valid() && subscribers == []
    {
      subscribers := [];
    }

    /** The subscribers `was` each got `e` once if alive; the live ones, and only they, remain. */
    twostate predicate Sent(was: seq<Channel>, e: Event)
      reads this, was
    {
      && subscribers == LiveOnes(was)
      && forall c :: c in was ==> c.queue == old(c.queue) + (if c.receiverAlive then [e] else [])
    }

    /** Nothing was sent and nobody was pruned. */
    twostate predicate Silent(was: seq<Channel>)
      reads this, was
    {
      && subscribers == was
      && forall c :: c in was ==> c.queue == old(c.queue)
    }

    /** Deliver `e` once to every subscriber whose receiver is alive; prune exactly the others. */
    method Emit(e: Event)
      requires Valid()
      modifies this`subscribers, (set c: Channel | c in subscribers)`queue
      ensures Valid()
      ensures Sent(old(subscribers), e)
      ensures forall c :: c in subscribers <==> c in old(subscribers) && c.receiverAlive
    {
      var kept := Retain(subscribers, e);
      LiveOnesMembers(subscribers);
      subscribers := kept;
    }

    /** Send `e` to each channel in turn, keeping those whose receiver is alive. */
    static method Retain(all: seq<Channel>, e: Event) returns (kept: seq<Channel>)
      requires forall i, j :: 0 <= i < j < |all| ==> all[i] != all[j]
      modifies (set c: Channel | c in all)`queue
      ensures kept == LiveOnes(all)
      ensures forall c :: c in all ==> c.queue == old(c.queue) + (if c.receiverAlive then [e] else [])
    {
      kept := [];
      for i := 0 to |all|
        invariant kept == LiveOnes(all[..i])
        invariant forall j :: 0 <= j < i ==>
                    all[j].queue == old(all[j].queue) + (if all[j].receiverAlive then [e] else [])
        invariant forall j :: i <= j < |all| ==> all[j].queue == old(all[j].queue)
      {
        var ok := all[i].Send(e);
        assert all[..i + 1][..i] == all[..i];
        if ok {
          kept := kept + [all[i]];
        }
      }
      assert all[..|all|] == all;
    }

    /** A new subscriber starts with an empty queue and sees every later event. */
    method Subscribe(filter: EventFilter) returns (s: EventStream)
      requires Valid()
      modifies this`subscribers
      ensures Valid()
      ensures fresh(s) && fresh(s.rx) && s.filter == filter
      ensures subscribers == old(subscribers) + [s.rx]
      ensures s.rx.queue == [] && s.rx.receiverAlive && s.rx.senderAlive
    {
      var ch := new Channel();
      subscribers := subscribers + [ch];
      s := new EventStream(ch, filter);
    }
  }

  // ---------------------------------------------------------------- replay

  /** What one event says about the id-to-shareable view of a tenant. */
  function Fold1(m: map<nat, bool>, e: Event): map<nat, bool> {
    match e
    case RecordInserted(id, sh) => m[id := sh]
    case RecordDeleted(id) => m - {id}
    case _ => m
  }

  function Replay(m: map<nat, bool>, log: seq<Event>): map<nat, bool> {
    if log == [] then m else Fold1(Replay(m, log[..|log| - 1]), log[|log| - 1])
  }

  lemma ReplayEnd(m: map<nat, bool>, log: seq<Event>, e: Event)
    ensures Replay(m, log + [e]) == Fold1(Replay(m, log), e)
  {
    assert (log + [e])[..|log|] == log;
  }

  lemma {:induction false} ReplayAppend(m: map<nat, bool>, a: seq<Event>, b: seq<Event>)
    ensures Replay(m, a + b) == Replay(Replay(m, a), b)
  {
    if b == [] {
      assert a + b == a;
    } else {
      var b' := b[..|b| - 1];
      assert a + b == (a + b') + [b[|b| - 1]];
      ReplayAppend(m, a, b');
      ReplayEnd(m, a + b', b[|b| - 1]);
    }
  }

  predicate Concerns(e: Event, id: nat) {
    (e.RecordInserted? || e.RecordDeleted?) && e.id == id
  }

  /** The last record event about `id`, if any. */
  function LastOn(log: seq<Event>, id: nat): Option<Event> {
    if log == [] then None
    else if Concerns(log[|log| - 1], id) then Some(log[|log| - 1])
    else LastOn(log[..|log| - 1], id)
  }

  /** The whole value of a replay at `id` is decided by the last event about `id`. */
  lemma {:induction false} ReplayByLast(m: map<nat, bool>, log: seq<Event>, id: nat)
    ensures var r := Replay(m, log);
            match LastOn(log, id)
            case None => (id in r <==> id in m) && (id in m ==> r[id] == m[id])
            case Some(RecordInserted(_, sh)) => id in r && r[id] == sh
            case Some(_) => id !in r
  {
    if log != [] && !Concerns(log[|log| - 1], id) {
      ReplayByLast(m, log[..|log| - 1], id);
    }
  }
}
