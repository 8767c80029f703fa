/** The mutate-then-broadcast protocol of a shared tenant as a step relation.

    A writer changes the records under the state lock, releases it, and only then takes the
    subscribers' lock to broadcast. Any number of threads interleave; a broadcast hands its event
    to one subscriber at a time, and receivers receive and disappear at any moment in between. */
module EventProtocol {
  import opened Keyed
  import opened Events

  /** `start` is the length of the emission log when the channel was registered. */
  datatype Sub = Sub(start: nat, received: seq<Event>, queue: seq<Event>, receiverAlive: bool) {
    function Delivered(): seq<Event> { received + queue }
  }

  /** A broadcast in progress: it holds the subscribers' lock and has served `cursor` of them. */
  datatype Broadcast = Broadcast(e: Event, tid: nat, cursor: nat, kept: seq<nat>)

  /** `threads[t]` is the event thread `t` has to broadcast, if any. `mutations` and `emissions`
      are the histories of state changes and of started broadcasts. */
  datatype Sys = Sys(
    records: map<nat, bool>,
    threads: seq<Option<Event>>,
    subs: map<nat, Sub>,
    subscribers: seq<nat>,
    broadcast: Option<Broadcast>,
    mutations: seq<Event>,
    emissions: seq<Event>)
  {
    predicate Quiescent() {
      broadcast.None? && forall t :: 0 <= t < |threads| ==> threads[t].None?
    }
  }

  datatype Step =
    | Mutate(tid: nat, e: Event)
    | BeginEmit(tid: nat)
    | SendNext
    | EndEmit
    | Subscribe(c: nat)
    | Receive(c: nat)
    | DropReceiver(c: nat)

  function Init(records: map<nat, bool>, threads: nat): Sys {
    Sys(records, seq(threads, _ => None), map[], [], None, [], [])
  }

  /** Events a writer can cause: any insert; a delete only of a present id. */
  predicate Causes(records: map<nat, bool>, e: Event) {
    e.RecordInserted? || (e.RecordDeleted? && e.id in records)
  }

  /** The state after one step, or `None` when the step is not possible. */
  function Next(s: Sys, l: Step): Option<Sys> {
    match l
    case Mutate(tid, e) =>
      if tid < |s.threads| && s.threads[tid].None? && Causes(s.records, e)
         && (s.broadcast.Some? ==> s.broadcast.value.tid != tid)
      then Some(s.(records := Fold1(s.records, e),
                   threads := s.threads[tid := Some(e)],
                   mutations := s.mutations + [e]))
      else None
    case BeginEmit(tid) =>
      if tid < |s.threads| && s.threads[tid].Some? && s.broadcast.None?
      then Some(s.(threads := s.threads[tid := None],
                   broadcast := Some(Broadcast(s.threads[tid].value, tid, 0, [])),
                   emissions := s.emissions + [s.threads[tid].value]))
      else None
    case SendNext =>
      if s.broadcast.Some? && s.broadcast.value.cursor < |s.subscribers|
         && s.subscribers[s.broadcast.value.cursor] in s.subs
      then
        var b := s.broadcast.value;
        var c := s.subscribers[b.cursor];
        var sub := s.subs[c];
        if sub.receiverAlive
        then Some(s.(subs := s.subs[c := sub.(queue := sub.queue + [b.e])],
                     broadcast := Some(b.(cursor := b.cursor + 1, kept := b.kept + [c]))))
        else Some(s.(broadcast := Some(b.(cursor := b.cursor + 1))))
      else None
    case EndEmit =>
      if s.broadcast.Some? && s.broadcast.value.cursor == |s.subscribers|
      then Some(s.(subscribers := s.broadcast.value.kept, broadcast := None))
      else None
    case Subscribe(c) =>
      if s.broadcast.None? && c !in s.subs
      then Some(s.(subs := s.subs[c := Sub(|s.emissions|, [], [], true)],
                   subscribers := s.subscribers + [c]))
      else None
    case Receive(c) =>
      if c in s.subs && s.subs[c].receiverAlive && s.subs[c].queue != []
      then
        var sub := s.subs[c];
        Some(s.(subs := s.subs[c := sub.(received := sub.received + [sub.queue[0]], queue := sub.queue[1..])]))
      else None
    case DropReceiver(c) =>
      if c in s.subs && s.subs[c].receiverAlive
      then Some(s.(subs := s.subs[c := s.subs[c].(receiverAlive := false)]))
      else None
  }

  function Exec(s: Sys, steps: seq<Step>): Option<Sys>
    decreases |steps|
  {
    if steps == [] then Some(s)
    else match Next(s, steps[0])
         case None => None
         case Some(s') => Exec(s', steps[1..])
  }

  // ---------------------------------------------------------------- invariants

  /** One broadcast behind: the subscribers the current broadcast has not reached yet. */
  function Lag(s: Sys, i: nat): nat {
    if s.broadcast.Some? && s.broadcast.value.cursor <= i then 1 else 0
  }

  /** What subscriber `c` was handed is a contiguous stretch of the emission log from its
      registration point. */
  predicate Contiguous(s: Sys, c: nat)
    requires c in s.subs
  {
    var d := s.subs[c].Delivered();
    s.subs[c].start + |d| <= |s.emissions| && d == s.emissions[s.subs[c].start..s.subs[c].start + |d|]
  }

  /** A live subscriber is registered, and has been handed everything but a broadcast still on
      its way to it. */
  predicate UpToDate(s: Sys, i: nat)
    requires i < |s.subscribers| && s.subscribers[i] in s.subs
  {
    var sub := s.subs[s.subscribers[i]];
    sub.receiverAlive ==>
      && sub.start + |sub.Delivered()| + Lag(s, i) == |s.emissions|
      && (s.broadcast.Some? && i < s.broadcast.value.cursor ==> s.subscribers[i] in s.broadcast.value.kept)
  }

  predicate Registered(s: Sys) {
    && (forall i :: 0 <= i < |s.subscribers| ==> s.subscribers[i] in s.subs)
    && (forall i, j :: 0 <= i < j < |s.subscribers| ==> s.subscribers[i] != s.subscribers[j])
    && (forall c :: c in s.subs && s.subs[c].receiverAlive ==> c in s.subscribers)
  }

  predicate BroadcastOk(s: Sys) {
    s.broadcast.Some? ==>
      var b := s.broadcast.value;
      && b.cursor <= |s.subscribers|
      && |s.emissions| > 0
      && s.emissions[|s.emissions| - 1] == b.e
      && (forall c :: c in b.kept ==> c in s.subscribers[..b.cursor])
      && (forall i, j :: 0 <= i < j < |b.kept| ==> b.kept[i] != b.kept[j])
  }

  predicate Inv(s: Sys) {
    && Registered(s)
    && BroadcastOk(s)
    && (forall c :: c in s.subs ==> Contiguous(s, c))
    && (forall i :: 0 <= i < |s.subscribers| ==> UpToDate(s, i))
  }

  /** Steps that leave both logs, the registrations and every hand-over as they are. */
  lemma InvFrame(s: Sys, s': Sys)
    requires Inv(s)
    requires s'.subscribers == s.subscribers && s'.broadcast == s.broadcast && s'.emissions == s.emissions
    requires s'.subs.Keys == s.subs.Keys
    requires forall c :: c in s.subs ==>
               && s'.subs[c].start == s.subs[c].start && s'.subs[c].Delivered() == s.subs[c].Delivered()
               && (s'.subs[c].receiverAlive ==> s.subs[c].receiverAlive)
    ensures Inv(s')
  {
    forall c | c in s'.subs ensures Contiguous(s', c) { assert Contiguous(s, c); }
    forall i | 0 <= i < |s'.subscribers| ensures UpToDate(s', i) { assert UpToDate(s, i); }
  }

  lemma InvBegin(s: Sys, tid: nat)
    requires Inv(s) && Next(s, BeginEmit(tid)).Some?
    ensures Inv(Next(s, BeginEmit(tid)).value)
  {
    var s' := Next(s, BeginEmit(tid)).value;
    forall c | c in s'.subs ensures Contiguous(s', c) { assert Contiguous(s, c); }
    forall i | 0 <= i < |s'.subscribers| ensures UpToDate(s', i) { assert UpToDate(s, i); }
  }

  /** The broadcast can serve its next subscriber, and that one is alive. */
  predicate SendsLive(s: Sys) {
    Inv(s) && Next(s, SendNext).Some? && s.subs[s.subscribers[s.broadcast.value.cursor]].receiverAlive
  }

  lemma SendKeepsRegistered(s: Sys)
    requires SendsLive(s)
    ensures Registered(Next(s, SendNext).value) && BroadcastOk(Next(s, SendNext).value)
  {
    var b := s.broadcast.value;
    var c := s.subscribers[b.cursor];
    assert s.subscribers[..b.cursor + 1] == s.subscribers[..b.cursor] + [c];
    assert c !in s.subscribers[..b.cursor];
    forall d | d in b.kept + [c] ensures d in s.subscribers[..b.cursor + 1] {}
  }

  lemma StretchGrows(log: seq<Event>, start: nat, d: seq<Event>, e: Event)
    requires start + |d| + 1 == |log| && d == log[start..start + |d|] && log[|log| - 1] == e
    ensures d + [e] == log[start..start + |d + [e]|]
  {
  }

  lemma SendKeepsContiguous(s: Sys, d: nat)
    requires Next(s, SendNext).Some? && s.subs[s.subscribers[s.broadcast.value.cursor]].receiverAlive
    requires UpToDate(s, s.broadcast.value.cursor) && d in s.subs && Contiguous(s, d)
    requires s.emissions != [] && s.emissions[|s.emissions| - 1] == s.broadcast.value.e
    ensures Contiguous(Next(s, SendNext).value, d)
  {
    var s' := Next(s, SendNext).value;
    var b := s.broadcast.value;
    var c := s.subscribers[b.cursor];
    if d == c {
      var sub := s.subs[c];
      assert s'.subs[c].Delivered() == sub.Delivered() + [b.e];
      StretchGrows(s.emissions, sub.start, sub.Delivered(), b.e);
    }
  }

  lemma SendKeepsUpToDate(s: Sys, i: nat)
    requires SendsLive(s) && i < |s.subscribers|
    ensures UpToDate(Next(s, SendNext).value, i)
  {
    var s' := Next(s, SendNext).value;
    var b := s.broadcast.value;
    assert UpToDate(s, i);
    if i == b.cursor {
      var sub := s.subs[s.subscribers[i]];
      assert s'.subs[s.subscribers[i]].Delivered() == sub.Delivered() + [b.e];
    } else {
      assert s'.subs[s.subscribers[i]] == s.subs[s.subscribers[i]];
    }
  }

  /** The broadcast reaches a live subscriber. */
  lemma InvSendLive(s: Sys)
    requires SendsLive(s)
    ensures Inv(Next(s, SendNext).value)
  {
    var s' := Next(s, SendNext).value;
    SendKeepsRegistered(s);
    assert UpToDate(s, s.broadcast.value.cursor);
    forall d | d in s'.subs ensures Contiguous(s', d) { SendKeepsContiguous(s, d); }
    forall i | 0 <= i < |s'.subscribers| ensures UpToDate(s', i) { SendKeepsUpToDate(s, i); }
  }

  /** The broadcast finds a receiver gone: the subscriber is not kept. */
  lemma InvSendDead(s: Sys)
    requires Inv(s) && Next(s, SendNext).Some?
    requires !s.subs[s.subscribers[s.broadcast.value.cursor]].receiverAlive
    ensures Inv(Next(s, SendNext).value)
  {
    var s' := Next(s, SendNext).value;
    var b := s.broadcast.value;
    assert s.subscribers[..b.cursor + 1] == s.subscribers[..b.cursor] + [s.subscribers[b.cursor]];
    forall d | d in s'.subs ensures Contiguous(s', d) { assert Contiguous(s, d); }
    forall i | 0 <= i < |s'.subscribers| ensures UpToDate(s', i) { assert UpToDate(s, i); }
  }

  lemma InvEnd(s: Sys)
    requires Inv(s) && Next(s, EndEmit).Some?
    ensures Inv(Next(s, EndEmit).value)
  {
    var s' := Next(s, EndEmit).value;
    var kept := s.broadcast.value.kept;
    assert s.subscribers[..|s.subscribers|] == s.subscribers;
    forall c | c in s'.subs && s'.subs[c].receiverAlive ensures c in s'.subscribers {
      var i :| 0 <= i < |s.subscribers| && s.subscribers[i] == c;
      assert UpToDate(s, i);
    }
    forall d | d in s'.subs ensures Contiguous(s', d) { assert Contiguous(s, d); }
    forall i | 0 <= i < |s'.subscribers|
      ensures s'.subscribers[i] in s'.subs && UpToDate(s', i)
    {
      assert kept[i] in kept;
      var j :| 0 <= j < |s.subscribers| && s.subscribers[j] == kept[i];
      assert UpToDate(s, j);
    }
  }

  lemma InvSubscribe(s: Sys, c: nat)
    requires Inv(s) && Next(s, Subscribe(c)).Some?
    ensures Inv(Next(s, Subscribe(c)).value)
  {
    var s' := Next(s, Subscribe(c)).value;
    assert s'.subscribers[|s.subscribers|] == c;
    forall d | d in s'.subs ensures Contiguous(s', d) {
      if d != c { assert Contiguous(s, d); }
    }
    forall i | 0 <= i < |s'.subscribers| ensures UpToDate(s', i) {
      if i < |s.subscribers| { assert UpToDate(s, i); }
    }
    forall d | d in s'.subs && s'.subs[d].receiverAlive ensures d in s'.subscribers {
      if d != c { assert d in s.subscribers; }
    }
  }

  lemma InvStep(s: Sys, l: Step)
    requires Inv(s) && Next(s, l).Some?
    ensures Inv(Next(s, l).value)
  {
    match l
    case BeginEmit(tid) => InvBegin(s, tid);
    case SendNext =>
      if s.subs[s.subscribers[s.broadcast.value.cursor]].receiverAlive { InvSendLive(s); } else { InvSendDead(s); }
    case EndEmit => InvEnd(s);
    case Subscribe(c) => InvSubscribe(s, c);
    case Mutate(_, _) => InvFrame(s, Next(s, l).value);
    case Receive(c) =>
      assert Next(s, l).value.subs[c].Delivered() == s.subs[c].Delivered();
      InvFrame(s, Next(s, l).value);
    case DropReceiver(_) => InvFrame(s, Next(s, l).value);
  }

  // ---------------------------------------------------------------- conservation

  function PendingBag(ts: seq<Option<Event>>): multiset<Event> {
    if ts == [] then multiset{}
    else PendingBag(ts[..|ts| - 1]) + Bag(ts[|ts| - 1])
  }

  function Bag(o: Option<Event>): multiset<Event> {
    if o.Some? then multiset{o.value} else multiset{}
  }

  lemma PendingEnd(ts: seq<Option<Event>>, o: Option<Event>)
    ensures PendingBag(ts + [o]) == PendingBag(ts) + Bag(o)
  {
    assert (ts + [o])[..|ts|] == ts;
  }

  lemma UpdateSplit<T>(ts: seq<T>, t: nat, o: T)
    requires t < |ts|
    ensures var init, last := ts[..|ts| - 1], ts[|ts| - 1];
            && ts == init + [last]
            && ts[t := o] == if t == |init| then init + [o] else init[t := o] + [last]
  {
  }

  lemma AddLast(x: multiset<Event>, y: multiset<Event>, a: multiset<Event>, b: multiset<Event>, last: multiset<Event>)
    requires x + a == y + b
    ensures (x + last) + a == (y + last) + b
  {
    assert (x + last) + a == (x + a) + last;
    assert (y + last) + b == (y + b) + last;
  }

  lemma {:induction false} PendingUpdate(ts: seq<Option<Event>>, t: nat, o: Option<Event>)
    requires t < |ts|
    ensures PendingBag(ts[t := o]) + Bag(ts[t]) == PendingBag(ts) + Bag(o)
  {
    var init, last := ts[..|ts| - 1], ts[|ts| - 1];
    UpdateSplit(ts, t, o);
    PendingEnd(init, last);
    if t == |init| {
      PendingEnd(init, o);
    } else {
      PendingEnd(init[t := o], last);
      PendingUpdate(init, t, o);
      AddLast(PendingBag(init[t := o]), PendingBag(init), Bag(ts[t]), Bag(o), Bag(last));
    }
  }

  lemma {:induction false} PendingNone(ts: seq<Option<Event>>)
    requires forall t :: 0 <= t < |ts| ==> ts[t].None?
    ensures PendingBag(ts) == multiset{}
  {
    if ts == [] {
    } else {
      PendingNone(ts[..|ts| - 1]);
    }
  }

  /** Every change is broadcast at most once, and is pending until it is; the record map is
      exactly what the changes make of the initial one. */
  predicate Conserved(init: map<nat, bool>, s: Sys) {
    && multiset(s.emissions) + PendingBag(s.threads) == multiset(s.mutations)
    && s.records == Replay(init, s.mutations)
  }

  lemma MoveOne(sent: multiset<Event>, waiting: multiset<Event>, waiting': multiset<Event>, e: Event)
    requires waiting' + multiset{e} == waiting
    ensures (sent + multiset{e}) + waiting' == sent + waiting == (sent + waiting') + multiset{e}
  {
    assert (sent + multiset{e}) + waiting' == sent + (waiting' + multiset{e});
    assert (sent + waiting') + multiset{e} == sent + (waiting' + multiset{e});
  }

  lemma ConservedMutate(init: map<nat, bool>, s: Sys, tid: nat, e: Event)
    requires Conserved(init, s) && Next(s, Mutate(tid, e)).Some?
    ensures Conserved(init, Next(s, Mutate(tid, e)).value)
  {
    PendingUpdate(s.threads, tid, Some(e));
    ReplayEnd(init, s.mutations, e);
    assert PendingBag(s.threads[tid := Some(e)]) == PendingBag(s.threads) + multiset{e};
    assert multiset(s.mutations + [e]) == multiset(s.mutations) + multiset{e};
    MoveOne(multiset(s.emissions), PendingBag(s.threads[tid := Some(e)]), PendingBag(s.threads), e);
  }

  lemma ConservedBegin(init: map<nat, bool>, s: Sys, tid: nat)
    requires Conserved(init, s) && Next(s, BeginEmit(tid)).Some?
    ensures Conserved(init, Next(s, BeginEmit(tid)).value)
  {
    var e := s.threads[tid].value;
    PendingUpdate(s.threads, tid, None);
    MoveOne(multiset(s.emissions), PendingBag(s.threads), PendingBag(s.threads[tid := None]), e);
  }

  lemma ConservedFrame(init: map<nat, bool>, s: Sys, s': Sys)
    requires Conserved(init, s)
    requires s'.threads == s.threads && s'.records == s.records
    requires s'.mutations == s.mutations && s'.emissions == s.emissions
    ensures Conserved(init, s')
  {
  }

  lemma ConservedStep(init: map<nat, bool>, s: Sys, l: Step)
    requires Conserved(init, s) && Next(s, l).Some?
    ensures Conserved(init, Next(s, l).value)
  {
    match l
    case Mutate(tid, e) => ConservedMutate(init, s, tid, e);
    case BeginEmit(tid) => ConservedBegin(init, s, tid);
    case _ => ConservedFrame(init, s, Next(s, l).value);
  }

  // ---------------------------------------------------------------- whole runs

  lemma {:induction false} RunInvariant(init: map<nat, bool>, s: Sys, steps: seq<Step>)
    requires Inv(s) && Conserved(init, s) && Exec(s, steps).Some?
    ensures Inv(Exec(s, steps).value) && Conserved(init, Exec(s, steps).value)
    decreases |steps|
  {
    if steps == [] {
    } else {
      InvStep(s, steps[0]);
      ConservedStep(init, s, steps[0]);
      RunInvariant(init, Next(s, steps[0]).value, steps[1..]);
    }
  }

  lemma Reachable(init: map<nat, bool>, threads: nat, steps: seq<Step>)
    requires Exec(Init(init, threads), steps).Some?
    ensures Inv(Exec(Init(init, threads), steps).value)
    ensures Conserved(init, Exec(Init(init, threads), steps).value)
  {
    PendingNone(Init(init, threads).threads);
    RunInvariant(init, Init(init, threads), steps);
  }

  lemma LiveDelivered(s: Sys, c: nat)
    requires Inv(s) && c in s.subs && s.subs[c].receiverAlive
    ensures var sub := s.subs[c];
            && c in s.subscribers
            && sub.start <= |s.emissions|
            && |s.emissions[sub.start..]| <= |sub.Delivered()| + (if s.broadcast.Some? then 1 else 0)
            && (s.broadcast.None? ==> sub.Delivered() == s.emissions[sub.start..])
  {
    assert Contiguous(s, c);
    var i :| 0 <= i < |s.subscribers| && s.subscribers[i] == c;
    assert UpToDate(s, i);
  }

  /** In every reachable state a live subscriber holds, received or queued, the emission log from
      its registration point, except for at most the one broadcast that is still on its way; when
      no broadcast is under way it holds all of it. A dropped receiver holds a prefix of that. */
  lemma SubscriberSeesEmissionLog(init: map<nat, bool>, threads: nat, steps: seq<Step>, c: nat)
    requires Exec(Init(init, threads), steps).Some?
    requires c in Exec(Init(init, threads), steps).value.subs
    ensures var s := Exec(Init(init, threads), steps).value;
            var sub := s.subs[c];
            && sub.start <= |s.emissions|
            && sub.Delivered() <= s.emissions[sub.start..]
            && (sub.receiverAlive ==>
                  c in s.subscribers
                  && |s.emissions[sub.start..]| <= |sub.Delivered()| + (if s.broadcast.Some? then 1 else 0))
            && (sub.receiverAlive && s.broadcast.None? ==> sub.Delivered() == s.emissions[sub.start..])
  {
    Reachable(init, threads, steps);
    var s := Exec(Init(init, threads), steps).value;
    var sub := s.subs[c];
    assert Contiguous(s, c);
    if sub.receiverAlive {
      LiveDelivered(s, c);
    }
  }

  /** Any two subscribers agree on the order of the events both were handed. */
  lemma SubscribersAgree(init: map<nat, bool>, threads: nat, steps: seq<Step>, c: nat, d: nat, k: nat)
    requires Exec(Init(init, threads), steps).Some?
    requires var s := Exec(Init(init, threads), steps).value;
             && c in s.subs && d in s.subs
             && s.subs[c].start <= k < s.subs[c].start + |s.subs[c].Delivered()|
             && s.subs[d].start <= k < s.subs[d].start + |s.subs[d].Delivered()|
    ensures var s := Exec(Init(init, threads), steps).value;
            s.subs[c].Delivered()[k - s.subs[c].start] == s.subs[d].Delivered()[k - s.subs[d].start]
  {
    Reachable(init, threads, steps);
    var s := Exec(Init(init, threads), steps).value;
    assert Contiguous(s, c) && Contiguous(s, d);
  }

  /** Histories only grow, a registration point never moves, and a dropped receiver stays dropped. */
  ghost predicate Extends(s: Sys, t: Sys) {
    && s.emissions <= t.emissions && s.mutations <= t.mutations
    && forall c :: c in s.subs ==>
         && c in t.subs && t.subs[c].start == s.subs[c].start
         && (t.subs[c].receiverAlive ==> s.subs[c].receiverAlive)
  }

  lemma StepExtends(s: Sys, l: Step)
    requires Next(s, l).Some?
    ensures Extends(s, Next(s, l).value)
  {
  }

  lemma {:induction false} HistoriesGrow(s: Sys, steps: seq<Step>)
    requires Exec(s, steps).Some?
    ensures Extends(s, Exec(s, steps).value)
    decreases |steps|
  {
    if steps == [] {
    } else {
      StepExtends(s, steps[0]);
      HistoriesGrow(Next(s, steps[0]).value, steps[1..]);
    }
  }

  lemma MultisetSuffix(a: seq<Event>, b: seq<Event>, a': seq<Event>, b': seq<Event>)
    requires multiset(a) == multiset(b) && multiset(a + a') == multiset(b + b')
    ensures multiset(a') == multiset(b')
  {
    assert multiset(a + a') == multiset(a) + multiset(a');
    assert multiset(b + b') == multiset(b) + multiset(b');
    assert multiset(a') == multiset(a + a') - multiset(a);
  }

  lemma SuffixesAgree(init: map<nat, bool>, s: Sys, t: Sys, c: nat)
    requires Conserved(init, s) && Conserved(init, t) && s.Quiescent() && t.Quiescent()
    requires s.emissions <= t.emissions && s.mutations <= t.mutations
    requires Inv(s) && c in s.subs && s.subs[c].receiverAlive
    requires Inv(t) && c in t.subs && t.subs[c].receiverAlive && t.subs[c].start == s.subs[c].start
    ensures s.subs[c].Delivered() <= t.subs[c].Delivered()
    ensures multiset(t.subs[c].Delivered()[|s.subs[c].Delivered()|..]) == multiset(t.mutations[|s.mutations|..])
  {
    QuietLogs(init, s);
    QuietLogs(init, t);
    LiveDelivered(s, c);
    LiveDelivered(t, c);
    SuffixBags(s.emissions, s.mutations, t.emissions, t.mutations);
    assert t.subs[c].Delivered()[|s.subs[c].Delivered()|..] == t.emissions[|s.emissions|..];
  }

  lemma QuietLogs(init: map<nat, bool>, s: Sys)
    requires Conserved(init, s) && s.Quiescent()
    ensures multiset(s.emissions) == multiset(s.mutations)
  {
    PendingNone(s.threads);
  }

  lemma SuffixBags(a: seq<Event>, b: seq<Event>, a': seq<Event>, b': seq<Event>)
    requires a <= a' && b <= b' && multiset(a) == multiset(b) && multiset(a') == multiset(b')
    ensures multiset(a'[|a|..]) == multiset(b'[|b|..])
  {
    assert a' == a + a'[|a|..] && b' == b + b'[|b|..];
    MultisetSuffix(a, b, a'[|a|..], b'[|b|..]);
  }

  /** Between two quiescent moments nothing is lost and nothing is delivered twice: whenever it
      registered, a subscriber that stays alive is handed in between exactly the changes made in
      between, as a multiset, after what it had. */
  lemma NothingLostOrDuplicated(init: map<nat, bool>, threads: nat, before: seq<Step>, steps: seq<Step>, c: nat)
    requires Exec(Init(init, threads), before).Some?
    requires var s := Exec(Init(init, threads), before).value;
             && s.Quiescent() && c in s.subs
             && Exec(s, steps).Some?
             && Exec(s, steps).value.Quiescent()
             && c in Exec(s, steps).value.subs && Exec(s, steps).value.subs[c].receiverAlive
    ensures var s := Exec(Init(init, threads), before).value;
            var t := Exec(s, steps).value;
            var had, has := s.subs[c].Delivered(), t.subs[c].Delivered();
            && s.mutations <= t.mutations && had <= has
            && multiset(has[|had|..]) == multiset(t.mutations[|s.mutations|..])
  {
    var s := Exec(Init(init, threads), before).value;
    var t := Exec(s, steps).value;
    Reachable(init, threads, before);
    RunInvariant(init, s, steps);
    HistoriesGrow(s, steps);
    SuffixesAgree(init, s, t, c);
  }

  // ---------------------------------------------------------------- order

  lemma {:induction false} LastOnMember(log: seq<Event>, id: nat)
    ensures LastOn(log, id).Some? <==> exists e :: e in log && Concerns(e, id)
    ensures LastOn(log, id).Some? ==> LastOn(log, id).value in log && Concerns(LastOn(log, id).value, id)
  {
    if log == [] {
    } else {
      var n := |log| - 1;
      LastOnMember(log[..n], id);
      assert log == log[..n] + [log[n]];
    }
  }

  lemma ReplayAgreesAt(init: map<nat, bool>, a: seq<Event>, b: seq<Event>, id: nat)
    requires multiset(a) == multiset(b)
    ensures var r, m := Replay(init, a), Replay(init, b);
            LastOn(a, id) == LastOn(b, id) <==> (id in r <==> id in m) && (id in r && id in m ==> r[id] == m[id])
  {
    assert forall e :: e in a <==> e in multiset(a);
    assert forall e :: e in b <==> e in multiset(b);
    LastOnMember(a, id);
    LastOnMember(b, id);
    ReplayByLast(init, a, id);
    ReplayByLast(init, b, id);
  }

  /** Id by id, the last event about it is the same in both logs. */
  ghost predicate SameLast(a: seq<Event>, b: seq<Event>) {
    forall id: nat :: LastOn(a, id) == LastOn(b, id)
  }

  lemma PermutedReplay(init: map<nat, bool>, a: seq<Event>, b: seq<Event>)
    requires multiset(a) == multiset(b)
    ensures Replay(init, a) == Replay(init, b) <==> SameLast(a, b)
  {
    var r, m := Replay(init, a), Replay(init, b);
    if r == m {
      forall id: nat ensures LastOn(a, id) == LastOn(b, id) {
        ReplayAgreesAt(init, a, b, id);
      }
    }
    if SameLast(a, b) {
      forall id: nat ensures (id in r <==> id in m) && (id in r ==> r[id] == m[id]) {
        ReplayAgreesAt(init, a, b, id);
      }
      assert r.Keys == m.Keys;
      assert r == m;
    }
  }

  lemma QuietReplay(init: map<nat, bool>, s: Sys)
    requires Conserved(init, s) && s.Quiescent()
    ensures Replay(init, s.emissions) == s.records <==> SameLast(s.emissions, s.mutations)
  {
    QuietLogs(init, s);
    PermutedReplay(init, s.emissions, s.mutations);
  }

  /** At quiescence, replaying the broadcasts rebuilds the record map if and only if, id by id,
      the last broadcast about the id is the last change made to it. */
  lemma ReplayExactly(init: map<nat, bool>, threads: nat, steps: seq<Step>)
    requires Exec(Init(init, threads), steps).Some?
    requires Exec(Init(init, threads), steps).value.Quiescent()
    ensures var s := Exec(Init(init, threads), steps).value;
            Replay(init, s.emissions) == s.records
            <==> SameLast(s.emissions, s.mutations)
  {
    Reachable(init, threads, steps);
    QuietReplay(init, Exec(Init(init, threads), steps).value);
  }

  lemma {:induction false} ExecAppend(s: Sys, a: seq<Step>, b: seq<Step>)
    ensures Exec(s, a + b) == match Exec(s, a) case None => None case Some(s') => Exec(s', b)
    decreases |a|
  {
    if a == [] {
      assert a + b == b;
    } else {
      assert (a + b)[1..] == a[1..] + b;
      if Next(s, a[0]).Some? {
        ExecAppend(Next(s, a[0]).value, a[1..], b);
      }
    }
  }

  lemma Exec3(s: Sys, a: Step, b: Step, c: Step) returns (t: Sys)
    requires Next(s, a).Some? && Next(Next(s, a).value, b).Some?
    requires Next(Next(Next(s, a).value, b).value, c).Some?
    ensures t == Next(Next(Next(s, a).value, b).value, c).value && Exec(s, [a, b, c]) == Some(t)
  {
    t := Next(Next(Next(s, a).value, b).value, c).value;
    assert [a, b, c][1..] == [b, c] && [b, c][1..] == [c] && [c][1..] == [];
    assert Exec(t, []) == Some(t);
    assert Exec(Next(Next(s, a).value, b).value, [c]) == Some(t);
    assert Exec(Next(s, a).value, [b, c]) == Some(t);
  }

  // ---------------------------------------------------------------- when replays are right

  /** Thread `t` still has to broadcast a change to `id`. */
  predicate Waiting(s: Sys, t: nat, id: nat) {
    t < |s.threads| && s.threads[t].Some? && Concerns(s.threads[t].value, id)
  }

  /** Whatever waits to be broadcast about `id` is the last change to it. */
  ghost predicate TimelyAt(s: Sys, id: nat) {
    forall t: nat :: Waiting(s, t, id) ==> LastOn(s.mutations, id) == s.threads[t]
  }

  /** No broadcast is waiting that a later change has overtaken. */
  ghost predicate Timely(s: Sys) {
    forall id: nat :: TimelyAt(s, id)
  }

  /** `more` lets what is under way finish: no further change, and nothing left waiting. */
  ghost predicate Completes(s: Sys, more: seq<Step>) {
    NoChange(more) && Exec(s, more).Some? && Exec(s, more).value.Quiescent()
  }

  predicate NoChange(more: seq<Step>) {
    forall i :: 0 <= i < |more| ==> !more[i].Mutate?
  }

  ghost predicate ReplaysRight(init: map<nat, bool>, s: Sys, more: seq<Step>) {
    Completes(s, more) ==> Replay(init, Exec(s, more).value.emissions) == Exec(s, more).value.records
  }

  /** However what is under way finishes, a replay of the broadcasts is then the record map. */
  ghost predicate EndsRight(init: map<nat, bool>, s: Sys) {
    forall more: seq<Step> :: ReplaysRight(init, s, more)
  }

  // Letting the threads finish in an order of our choice.

  lemma {:induction false} FinishBroadcast(s: Sys) returns (more: seq<Step>, s': Sys)
    requires Inv(s)
    ensures NoChange(more) && Exec(s, more) == Some(s') && Inv(s') && s'.broadcast.None?
    ensures s'.threads == s.threads && s'.mutations == s.mutations && s'.emissions == s.emissions
    decreases if s.broadcast.Some? then |s.subscribers| - s.broadcast.value.cursor + 1 else 0
  {
    if s.broadcast.None? {
      more, s' := [], s;
    } else {
      var l := if s.broadcast.value.cursor == |s.subscribers| then EndEmit else SendNext;
      InvStep(s, l);
      var rest;
      rest, s' := FinishBroadcast(Next(s, l).value);
      more := [l] + rest;
      assert more[1..] == rest;
    }
  }

  lemma EmitThread(s: Sys, t: nat) returns (more: seq<Step>, s': Sys)
    requires Inv(s) && s.broadcast.None? && t < |s.threads| && s.threads[t].Some?
    ensures NoChange(more) && Exec(s, more) == Some(s') && Inv(s') && s'.broadcast.None?
    ensures s'.threads == s.threads[t := None] && s'.mutations == s.mutations
    ensures s'.emissions == s.emissions + [s.threads[t].value]
  {
    InvStep(s, BeginEmit(t));
    var rest;
    rest, s' := FinishBroadcast(Next(s, BeginEmit(t)).value);
    more := [BeginEmit(t)] + rest;
    assert more[1..] == rest;
  }

  /** Every thread below `n` but `last` broadcasts what it has. */
  lemma {:induction false} Drain(s: Sys, last: nat, n: nat) returns (more: seq<Step>, s': Sys)
    requires Inv(s) && s.broadcast.None? && n <= |s.threads|
    ensures NoChange(more) && Exec(s, more) == Some(s') && Inv(s') && s'.broadcast.None?
    ensures |s'.threads| == |s.threads| && s'.mutations == s.mutations
    ensures forall u :: 0 <= u < |s.threads| ==>
              s'.threads[u] == if u < n && u != last then None else s.threads[u]
    decreases n
  {
    if n == 0 {
      more, s' := [], s;
    } else {
      more, s' := Drain(s, last, n - 1);
      if n - 1 != last && s'.threads[n - 1].Some? {
        var rest, s'' := EmitThread(s', n - 1);
        ExecAppend(s, more, rest);
        more, s' := more + rest, s'';
      }
    }
  }

  /** A waiting broadcast that a later change has overtaken can come last, and then the replay of
      the broadcasts is not the record map. */
  lemma OvertakenCanComeLast(init: map<nat, bool>, s: Sys, t: nat, id: nat) returns (more: seq<Step>)
    requires Inv(s) && Conserved(init, s)
    requires Waiting(s, t, id) && LastOn(s.mutations, id) != s.threads[t]
    ensures Completes(s, more) && !ReplaysRight(init, s, more)
  {
    var s', before;
    more, s', before := BroadcastLast(s, t);
    RunInvariant(init, s, more);
    WrongAtTheEnd(init, s', before, s.threads[t].value, id);
  }

  /** A way to finish in which thread `t` broadcasts last. */
  lemma BroadcastLast(s: Sys, t: nat) returns (more: seq<Step>, s': Sys, before: seq<Event>)
    requires Inv(s) && t < |s.threads| && s.threads[t].Some?
    ensures NoChange(more) && Exec(s, more) == Some(s') && s'.Quiescent()
    ensures s'.emissions == before + [s.threads[t].value] && s'.mutations == s.mutations
  {
    var a, s1 := FinishBroadcast(s);
    var b, s2 := Drain(s1, t, |s1.threads|);
    var c, s3 := EmitThread(s2, t);
    ExecAppend(s, a, b);
    ExecAppend(s, a + b, c);
    more, s', before := a + b + c, s3, s2.emissions;
  }

  lemma WrongAtTheEnd(init: map<nat, bool>, s: Sys, before: seq<Event>, e: Event, id: nat)
    requires Conserved(init, s) && s.Quiescent()
    requires s.emissions == before + [e] && Concerns(e, id) && LastOn(s.mutations, id) != Some(e)
    ensures Replay(init, s.emissions) != s.records
  {
    LastOnEnd(before, e, id);
    QuietReplay(init, s);
  }

  // Keeping the last broadcast the last change.

  ghost predicate Idle(s: Sys, id: nat) {
    forall t: nat :: !Waiting(s, t, id)
  }

  /** A waiting broadcast about an id is its last change; with none waiting, its last broadcast is. */
  ghost predicate InOrder(s: Sys, id: nat) {
    && TimelyAt(s, id)
    && (Idle(s, id) ==> LastOn(s.mutations, id) == LastOn(s.emissions, id))
  }

  ghost predicate PerIdOrder(s: Sys) {
    forall id: nat :: InOrder(s, id)
  }

  lemma LastOnEnd(log: seq<Event>, e: Event, id: nat)
    ensures LastOn(log + [e], id) == if Concerns(e, id) then Some(e) else LastOn(log, id)
  {
    assert (log + [e])[..|log|] == log;
  }

  lemma MutateInOrder(s: Sys, tid: nat, e: Event, id: nat)
    requires InOrder(s, id) && Next(s, Mutate(tid, e)).Some?
    requires TimelyAt(Next(s, Mutate(tid, e)).value, id)
    ensures InOrder(Next(s, Mutate(tid, e)).value, id)
  {
    var s' := Next(s, Mutate(tid, e)).value;
    LastOnEnd(s.mutations, e, id);
    if Concerns(e, id) {
      assert Waiting(s', tid, id);
    } else if Idle(s', id) {
      assert Idle(s, id) by {
        forall t: nat ensures !Waiting(s, t, id) { assert !Waiting(s', t, id); }
      }
    }
  }

  lemma BeginInOrder(s: Sys, tid: nat, id: nat)
    requires InOrder(s, id) && Next(s, BeginEmit(tid)).Some?
    ensures InOrder(Next(s, BeginEmit(tid)).value, id)
  {
    var s' := Next(s, BeginEmit(tid)).value;
    var e := s.threads[tid].value;
    LastOnEnd(s.emissions, e, id);
    forall t: nat ensures Waiting(s', t, id) <==> Waiting(s, t, id) && t != tid {}
    if Concerns(e, id) {
      assert Waiting(s, tid, id);
    } else if Idle(s', id) {
      assert Idle(s, id) by {
        forall t: nat ensures !Waiting(s, t, id) { assert !Waiting(s', t, id); }
      }
    }
  }

  lemma QuietInOrder(s: Sys, s': Sys, id: nat)
    requires InOrder(s, id)
    requires s'.threads == s.threads && s'.mutations == s.mutations && s'.emissions == s.emissions
    ensures InOrder(s', id)
  {
    forall t: nat ensures Waiting(s', t, id) <==> Waiting(s, t, id) {}
    if Idle(s', id) {
      assert Idle(s, id) by {
        forall t: nat ensures !Waiting(s, t, id) { assert !Waiting(s', t, id); }
      }
    }
  }

  lemma StepInOrder(s: Sys, l: Step)
    requires PerIdOrder(s) && Next(s, l).Some? && (l.Mutate? ==> Timely(Next(s, l).value))
    ensures PerIdOrder(Next(s, l).value)
  {
    var s' := Next(s, l).value;
    forall id: nat ensures InOrder(s', id) {
      assert InOrder(s, id);
      match l
      case Mutate(tid, e) => MutateInOrder(s, tid, e, id);
      case BeginEmit(tid) => BeginInOrder(s, tid, id);
      case _ => QuietInOrder(s, s', id);
    }
  }

  lemma {:induction false} CompletionInOrder(s: Sys, more: seq<Step>)
    requires PerIdOrder(s) && NoChange(more) && Exec(s, more).Some?
    ensures PerIdOrder(Exec(s, more).value)
    decreases |more|
  {
    if more == [] {
    } else {
      StepInOrder(s, more[0]);
      CompletionInOrder(Next(s, more[0]).value, more[1..]);
    }
  }

  lemma QuietInOrderReplays(init: map<nat, bool>, s: Sys)
    requires Conserved(init, s) && s.Quiescent() && PerIdOrder(s)
    ensures Replay(init, s.emissions) == s.records
  {
    assert SameLast(s.emissions, s.mutations) by {
      forall id: nat ensures LastOn(s.emissions, id) == LastOn(s.mutations, id) {
        assert InOrder(s, id) && Idle(s, id);
      }
    }
    QuietReplay(init, s);
  }

  // Over a whole run.

  /** The state a run is in after `n` steps. */
  function After(init: map<nat, bool>, threads: nat, steps: seq<Step>, n: nat): Option<Sys>
    requires n <= |steps|
  {
    Exec(Init(init, threads), steps[..n])
  }

  lemma PrefixRuns(s: Sys, steps: seq<Step>, n: nat)
    requires n <= |steps| && Exec(s, steps).Some?
    ensures Exec(s, steps[..n]).Some?
  {
    assert steps == steps[..n] + steps[n..];
    ExecAppend(s, steps[..n], steps[n..]);
  }

  lemma ExecEnd(s: Sys, steps: seq<Step>, n: nat)
    requires n < |steps| && Exec(s, steps[..n]).Some?
    ensures Exec(s, steps[..n + 1]) == Next(Exec(s, steps[..n]).value, steps[n])
  {
    ExecAppend(s, steps[..n], [steps[n]]);
    assert steps[..n + 1] == steps[..n] + [steps[n]];
    ExecOne(Exec(s, steps[..n]).value, steps[n]);
  }

  lemma ExecOne(s: Sys, l: Step)
    ensures Exec(s, [l]) == Next(s, l)
  {
    assert [l][1..] == [];
  }

  lemma AfterStep(init: map<nat, bool>, threads: nat, steps: seq<Step>, n: nat)
    requires n < |steps| && Exec(Init(init, threads), steps).Some?
    ensures After(init, threads, steps, n).Some? && After(init, threads, steps, n + 1).Some?
    ensures Next(After(init, threads, steps, n).value, steps[n]) == After(init, threads, steps, n + 1)
  {
    PrefixRuns(Init(init, threads), steps, n);
    PrefixRuns(Init(init, threads), steps, n + 1);
    ExecEnd(Init(init, threads), steps, n);
  }

  ghost predicate TimelyUpTo(init: map<nat, bool>, threads: nat, steps: seq<Step>, n: nat)
    requires n <= |steps|
  {
    forall m: nat :: m <= n ==> After(init, threads, steps, m).Some? && Timely(After(init, threads, steps, m).value)
  }

  lemma {:induction false} TimelyRunInOrder(init: map<nat, bool>, threads: nat, steps: seq<Step>, n: nat)
    requires n <= |steps| && Exec(Init(init, threads), steps).Some? && TimelyUpTo(init, threads, steps, n)
    ensures PerIdOrder(After(init, threads, steps, n).value)
    decreases n
  {
    if n == 0 {
      forall id: nat ensures InOrder(Init(init, threads), id) {
        assert LastOn([], id) == None;
      }
    } else {
      TimelyRunInOrder(init, threads, steps, n - 1);
      AfterStep(init, threads, steps, n - 1);
      StepInOrder(After(init, threads, steps, n - 1).value, steps[n - 1]);
    }
  }

  lemma AfterReachable(init: map<nat, bool>, threads: nat, steps: seq<Step>, n: nat)
    requires n <= |steps| && Exec(Init(init, threads), steps).Some?
    ensures After(init, threads, steps, n).Some?
    ensures Inv(After(init, threads, steps, n).value) && Conserved(init, After(init, threads, steps, n).value)
  {
    PrefixRuns(Init(init, threads), steps, n);
    Reachable(init, threads, steps[..n]);
  }

  lemma TimelyEndsRight(init: map<nat, bool>, threads: nat, steps: seq<Step>, n: nat)
    requires n <= |steps| && Exec(Init(init, threads), steps).Some? && TimelyUpTo(init, threads, steps, n)
    ensures After(init, threads, steps, n).Some? && EndsRight(init, After(init, threads, steps, n).value)
  {
    AfterReachable(init, threads, steps, n);
    TimelyRunInOrder(init, threads, steps, n);
    var s := After(init, threads, steps, n).value;
    forall more: seq<Step> ensures ReplaysRight(init, s, more) {
      if Completes(s, more) {
        RunInvariant(init, s, more);
        CompletionInOrder(s, more);
        QuietInOrderReplays(init, Exec(s, more).value);
      }
    }
  }

  lemma RightOnlyWhenTimely(init: map<nat, bool>, s: Sys)
    requires Inv(s) && Conserved(init, s) && EndsRight(init, s)
    ensures Timely(s)
  {
    forall id: nat, t: nat | Waiting(s, t, id) ensures LastOn(s.mutations, id) == s.threads[t] {
      if LastOn(s.mutations, id) != s.threads[t] {
        var more := OvertakenCanComeLast(init, s, t, id);
      }
    }
  }

  /** A run is safe to stop anywhere - however its threads then finish, replaying the broadcasts
      gives the record map - if and only if at no moment a broadcast was waiting that a later change
      to its id had overtaken. */
  lemma ReplaysRightExactlyWhenTimely(init: map<nat, bool>, threads: nat, steps: seq<Step>)
    requires Exec(Init(init, threads), steps).Some?
    ensures (forall n: nat :: n <= |steps| ==>
               After(init, threads, steps, n).Some? && EndsRight(init, After(init, threads, steps, n).value))
            <==> TimelyUpTo(init, threads, steps, |steps|)
  {
    if TimelyUpTo(init, threads, steps, |steps|) {
      forall n: nat | n <= |steps|
        ensures After(init, threads, steps, n).Some? && EndsRight(init, After(init, threads, steps, n).value)
      {
        TimelyEndsRight(init, threads, steps, n);
      }
    }
    if forall n: nat :: n <= |steps| ==>
         After(init, threads, steps, n).Some? && EndsRight(init, After(init, threads, steps, n).value)
    {
      forall n: nat | n <= |steps|
        ensures After(init, threads, steps, n).Some? && Timely(After(init, threads, steps, n).value)
      {
        AfterReachable(init, threads, steps, n);
        RightOnlyWhenTimely(init, After(init, threads, steps, n).value);
      }
    }
  }

  /** Two writers of id 7 have both changed it, the insert first, and neither has broadcast. */
  function BothChanged(): Sys {
    Sys(map[], [Some(RecordInserted(7, true)), Some(RecordDeleted(7))], map[0 := Sub(0, [], [], true)], [0], None,
        [RecordInserted(7, true), RecordDeleted(7)], [])
  }

  /** The one that deleted has broadcast first. */
  function DeleteSent(): Sys {
    BothChanged().(threads := [Some(RecordInserted(7, true)), None],
                   subs := map[0 := Sub(0, [], [RecordDeleted(7)], true)], emissions := [RecordDeleted(7)])
  }

  function BothSent(): Sys {
    BothChanged().(threads := [None, None],
                   subs := map[0 := Sub(0, [], [RecordDeleted(7), RecordInserted(7, true)], true)],
                   emissions := [RecordDeleted(7), RecordInserted(7, true)])
  }

  lemma ChangesFirst()
    ensures Exec(Init(map[], 2), [Subscribe(0), Mutate(0, RecordInserted(7, true)), Mutate(1, RecordDeleted(7))])
            == Some(BothChanged())
  {
    var s := Exec3(Init(map[], 2), Subscribe(0), Mutate(0, RecordInserted(7, true)), Mutate(1, RecordDeleted(7)));
    assert s.threads == BothChanged().threads && s.subs == BothChanged().subs;
    assert s.subscribers == [0] && s.emissions == BothChanged().emissions && s.mutations == BothChanged().mutations;
  }

  lemma DeleteNext()
    ensures Exec(BothChanged(), [BeginEmit(1), SendNext, EndEmit]) == Some(DeleteSent())
  {
    var s := Exec3(BothChanged(), BeginEmit(1), SendNext, EndEmit);
    assert s.subs[0].queue == [RecordDeleted(7)];
    assert s.threads == DeleteSent().threads && s.subs == DeleteSent().subs;
    assert s.subscribers == [0] && s.emissions == DeleteSent().emissions && s.mutations == DeleteSent().mutations;
  }

  lemma InsertLast()
    ensures Exec(DeleteSent(), [BeginEmit(0), SendNext, EndEmit]) == Some(BothSent())
  {
    var s := Exec3(DeleteSent(), BeginEmit(0), SendNext, EndEmit);
    assert s.subs[0].queue == [RecordDeleted(7), RecordInserted(7, true)];
    assert s.threads == BothSent().threads && s.subs == BothSent().subs;
    assert s.subscribers == [0] && s.emissions == BothSent().emissions && s.mutations == BothSent().mutations;
  }

  /** The condition can fail: the lock is released before the broadcast, so two writers of one id
      may broadcast in the opposite order, and a subscriber ends with the wrong view. The state after
      both changes is not timely, and the rest of the run is one of its completions. */
  lemma OverlappingWritersReorder()
    ensures var ins, del := RecordInserted(7, true), RecordDeleted(7);
            var run := [Subscribe(0), Mutate(0, ins), Mutate(1, del)];
            var more := [BeginEmit(1), SendNext, EndEmit] + [BeginEmit(0), SendNext, EndEmit];
            var end := Exec(Init(map[], 2), run + more);
            && Exec(Init(map[], 2), run) == Some(BothChanged()) && !Timely(BothChanged())
            && Completes(BothChanged(), more)
            && end.Some? && end.value.Quiescent()
            && end.value.records == map[]
            && 0 in end.value.subs && end.value.subs[0].Delivered() == [del, ins]
            && Replay(map[], end.value.subs[0].Delivered()) == map[7 := true]
  {
    var ins, del := RecordInserted(7, true), RecordDeleted(7);
    var a := [Subscribe(0), Mutate(0, ins), Mutate(1, del)];
    var b := [BeginEmit(1), SendNext, EndEmit] + [BeginEmit(0), SendNext, EndEmit];
    ChangesFirst();
    BroadcastsSwapped();
    InsertOvertaken();
    ExecAppend(Init(map[], 2), a, b);
    BothSentView();
  }

  lemma BothSentView()
    ensures var ins, del := RecordInserted(7, true), RecordDeleted(7);
            var end := BothSent();
            && end.Quiescent() && end.records == map[]
            && 0 in end.subs && end.subs[0].Delivered() == [del, ins]
            && Replay(map[], end.subs[0].Delivered()) == map[7 := true]
  {
    var ins, del := RecordInserted(7, true), RecordDeleted(7);
    assert BothSent().subs[0].Delivered() == [del, ins];
    ReplayTwo(map[], del, ins);
    assert Fold1(Fold1(map[], del), ins) == map[7 := true];
  }

  lemma ReplayTwo(m: map<nat, bool>, a: Event, b: Event)
    ensures Replay(m, [a, b]) == Fold1(Fold1(m, a), b)
  {
    ReplayEnd(m, [], a);
    ReplayEnd(m, [a], b);
    assert [] + [a] == [a] && [a] + [b] == [a, b];
  }

  lemma BroadcastsSwapped()
    ensures var more := [BeginEmit(1), SendNext, EndEmit] + [BeginEmit(0), SendNext, EndEmit];
            Completes(BothChanged(), more) && Exec(BothChanged(), more) == Some(BothSent())
  {
    DeleteNext();
    InsertLast();
    ExecAppend(BothChanged(), [BeginEmit(1), SendNext, EndEmit], [BeginEmit(0), SendNext, EndEmit]);
  }

  lemma InsertOvertaken()
    ensures !Timely(BothChanged())
  {
    var ins, del := RecordInserted(7, true), RecordDeleted(7);
    LastOnEnd([ins], del, 7);
    assert [ins] + [del] == [ins, del];
    assert Waiting(BothChanged(), 0, 7) && !TimelyAt(BothChanged(), 7);
  }

  // ---------------------------------------------------------------- serialised writers

  /** No change is made to an id while another change to it waits for its broadcast. */
  ghost predicate NoOverlap(s: Sys, steps: seq<Step>)
    decreases |steps|
  {
    steps != [] ==>
      && (steps[0].Mutate? ==> forall t: nat, id: nat :: Waiting(s, t, id) ==> !Concerns(steps[0].e, id))
      && (Next(s, steps[0]).Some? ==> NoOverlap(Next(s, steps[0]).value, steps[1..]))
  }

  lemma SerialisedStepIsTimely(s: Sys, steps: seq<Step>)
    requires Timely(s) && steps != [] && NoOverlap(s, steps) && Next(s, steps[0]).Some?
    ensures Timely(Next(s, steps[0]).value)
  {
    var s' := Next(s, steps[0]).value;
    forall id: nat, t: nat | Waiting(s', t, id) ensures LastOn(s'.mutations, id) == s'.threads[t] {
      assert TimelyAt(s, id);
      if steps[0].Mutate? {
        LastOnEnd(s.mutations, steps[0].e, id);
        assert t != steps[0].tid ==> Waiting(s, t, id);
      } else {
        assert Waiting(s, t, id);
      }
    }
  }

  lemma {:induction false} SerialisedRunIsTimely(s: Sys, steps: seq<Step>, n: nat)
    requires Timely(s) && NoOverlap(s, steps) && Exec(s, steps).Some? && n <= |steps|
    ensures Exec(s, steps[..n]).Some? && Timely(Exec(s, steps[..n]).value)
    decreases n
  {
    if n == 0 {
    } else {
      SerialisedStepIsTimely(s, steps);
      SerialisedRunIsTimely(Next(s, steps[0]).value, steps[1..], n - 1);
      assert steps[..n][1..] == steps[1..][..n - 1];
    }
  }

  /** If writers of one id never overlap, then at quiescence every replay of the emission log is
      the record map, however writers of different ids interleave: such runs are timely. */
  lemma SerialisedWritersReplay(init: map<nat, bool>, threads: nat, steps: seq<Step>)
    requires Exec(Init(init, threads), steps).Some? && NoOverlap(Init(init, threads), steps)
    ensures TimelyUpTo(init, threads, steps, |steps|)
    ensures var s := Exec(Init(init, threads), steps).value;
            s.Quiescent() ==> Replay(init, s.emissions) == s.records
  {
    var s := Exec(Init(init, threads), steps).value;
    forall n: nat | n <= |steps|
      ensures After(init, threads, steps, n).Some? && Timely(After(init, threads, steps, n).value)
    {
      SerialisedRunIsTimely(Init(init, threads), steps, n);
    }
    ReplaysRightExactlyWhenTimely(init, threads, steps);
    assert steps[..|steps|] == steps && After(init, threads, steps, |steps|) == Some(s);
    assert ReplaysRight(init, s, []);
  }

  /** A subscriber that registers first and then sees only serialised writers rebuilds the map. */
  lemma SubscriberReplayIsCurrent(init: map<nat, bool>, threads: nat, steps: seq<Step>, c: nat)
    requires Exec(Init(init, threads), steps).Some? && NoOverlap(Init(init, threads), steps)
    requires var s := Exec(Init(init, threads), steps).value;
             s.Quiescent() && c in s.subs && s.subs[c].receiverAlive
    ensures var s := Exec(Init(init, threads), steps).value;
            && s.subs[c].start <= |s.emissions|
            && Replay(Replay(init, s.emissions[..s.subs[c].start]), s.subs[c].Delivered()) == s.records
  {
    SerialisedWritersReplay(init, threads, steps);
    SubscriberSeesEmissionLog(init, threads, steps, c);
    var s := Exec(Init(init, threads), steps).value;
    ReplayAppend(init, s.emissions[..s.subs[c].start], s.subs[c].Delivered());
    assert s.emissions == s.emissions[..s.subs[c].start] + s.emissions[s.subs[c].start..];
  }
}
