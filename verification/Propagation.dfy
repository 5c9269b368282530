/** How store changes reach the proxy: writers commit and then publish without blocking into the
    subscribers' 32-slot channels, and the gateway rebuilds from five separate reads. Every lock
    acquisition, channel send, channel receive, transaction and table swap is one step, and the
    steps of all goroutines interleave freely. */
module Propagation {
  import opened Basics

  const CAPACITY := 32

  type WriterId = nat
  type SubId = nat

  /** The gateway's own subscription. */
  const GATEWAY: SubId := 0

  datatype Kind = Listeners | Middlewares | Groups | Routes | Destinations

  /** The order in which `rebuild` lists the five kinds. */
  const ORDER: seq<Kind> := [Listeners, Middlewares, Groups, Routes, Destinations]

  function Rank(k: Kind): (i: nat)
    ensures i < |ORDER| && ORDER[i] == k
  {
    match k
    case Listeners => 0
    case Middlewares => 1
    case Groups => 2
    case Routes => 3
    case Destinations => 4
  }

  datatype Resource = Config(kind: Kind) | Secret | Snapshot
  datatype Event = Event(resource: Resource, id: string)
  type Bucket = map<string, string>
  type Contents = map<Kind, Bucket>

  function Get(m: Contents, k: Kind): Bucket {
    if k in m then m[k] else map[]
  }

  /** `subsMu`: free, or held by a writer that is sending `ev` to the remaining channels `todo`. */
  datatype Mutex = Free | Held(w: WriterId, ev: Event, todo: seq<SubId>)

  datatype Phase = Open | Cancelled | Removed | Closed

  /** What a `publish` did with one event on one channel that already held `depth` events. */
  datatype Delivery = Delivery(ev: Event, depth: nat, sent: bool)

  /** A subscriber's channel, with the history of what was offered to it and what it handed out. */
  datatype Channel = Channel(queue: seq<Event>, phase: Phase, start: nat, log: seq<Delivery>, received: seq<Event>)

  datatype Gateway =
    | NotStarted
    | Reading(done: nat, got: Contents)
    | Swapped(got: Contents)
    | Waiting(ok: bool)
    | Stopped

  /** `pending` holds the writers that have committed and not yet begun to publish. `unannounced` says that the store
      was restored after the last commit and after the gateway last began to read. */
  datatype State = State(
    store: Contents,
    pending: map<WriterId, Event>,
    mutex: Mutex,
    subs: seq<SubId>,
    channels: map<SubId, Channel>,
    published: seq<Event>,
    gateway: Gateway,
    applied: Contents,
    panicked: bool,
    unannounced: bool)

  predicate Initial(s: State) {
    && s.pending == map[] && s.mutex == Free && s.subs == [] && s.channels == map[] && s.published == []
    && s.gateway == NotStarted && s.applied == map[] && !s.panicked && !s.unannounced
  }

  // ----- Steps -----

  /** A commit saves a value under an identifier, or deletes what is there; a restore replaces whole buckets. */
  datatype Step =
    | Commit(w: WriterId, resource: Resource, id: string, value: Option<string>)
    | Restore(dump: Contents)
    | Lock(w: WriterId)
    | Send(w: WriterId)
    | Unlock(w: WriterId)
    | Subscribe(c: SubId)
    | Cancel(c: SubId)
    | Unsubscribe(c: SubId)
    | Close(c: SubId)
    | Receive(c: SubId)
    | GatewayStart
    | GatewayReceive
    | GatewayRead
    | GatewayFail
    | GatewaySwap
    | GatewayReconcile
    | GatewayStop

  predicate Enabled(s: State, a: Step) {
    && !s.panicked
    && match a
       case Commit(w, r, id, v) =>
         && w !in s.pending && (s.mutex.Held? ==> s.mutex.w != w)
         && (r.Config? && v.None? ==> id in Get(s.store, r.kind))
       case Restore(_) => true
       case Lock(w) => w in s.pending && s.mutex.Free?
       case Send(w) => s.mutex.Held? && s.mutex.w == w && s.mutex.todo != [] && s.mutex.todo[0] in s.channels
       case Unlock(w) => s.mutex.Held? && s.mutex.w == w && s.mutex.todo == []
       case Subscribe(c) => c != GATEWAY && c !in s.channels && s.mutex.Free?
       case Cancel(c) => c in s.channels && s.channels[c].phase.Open?
       case Unsubscribe(c) => c in s.channels && s.channels[c].phase.Cancelled? && s.mutex.Free?
       case Close(c) => c in s.channels && s.channels[c].phase.Removed?
       case Receive(c) => c != GATEWAY && c in s.channels && s.channels[c].queue != []
       case GatewayStart => s.gateway.NotStarted? && GATEWAY !in s.channels && s.mutex.Free?
       case GatewayReceive => s.gateway.Waiting? && GATEWAY in s.channels && s.channels[GATEWAY].queue != []
       case GatewayRead => s.gateway.Reading? && s.gateway.done < |ORDER|
       case GatewayFail => s.gateway.Reading?
       case GatewaySwap => s.gateway.Reading? && s.gateway.done == |ORDER|
       case GatewayReconcile => s.gateway.Swapped?
       case GatewayStop => s.gateway.Waiting? && GATEWAY in s.channels && !s.channels[GATEWAY].phase.Open?
  }

  function Write(b: Bucket, id: string, v: Option<string>): Bucket {
    match v
    case Some(x) => b[id := x]
    case None => b - {id}
  }

  const NEW_CHANNEL := Channel([], Open, 0, [], [])

  function Offer(c: Channel, ev: Event): Channel {
    var sent := |c.queue| < CAPACITY;
    c.(queue := if sent then c.queue + [ev] else c.queue, log := c.log + [Delivery(ev, |c.queue|, sent)])
  }

  function Take(c: Channel): Channel
    requires c.queue != []
  {
    c.(queue := c.queue[1..], received := c.received + [c.queue[0]])
  }

  /** The subscriber list without the first occurrence of `c`. */
  function Without(subs: seq<SubId>, c: SubId): seq<SubId> {
    if subs == [] then []
    else if subs[0] == c then subs[1..]
    else [subs[0]] + Without(subs[1..], c)
  }

  function AddSubscriber(s: State, c: SubId): State {
    s.(subs := s.subs + [c], channels := s.channels[c := NEW_CHANNEL.(start := |s.published|)])
  }

  function Apply(s: State, a: Step): State
    requires Enabled(s, a)
  {
    match a
    case Commit(w, r, id, v) =>
      var s' := s.(pending := s.pending[w := Event(r, id)], unannounced := false);
      if r.Config? then s'.(store := s.store[r.kind := Write(Get(s.store, r.kind), id, v)]) else s'
    case Restore(dump) => s.(store := s.store + dump, unannounced := true)
    case Lock(w) =>
      var ev := s.pending[w];
      s.(pending := s.pending - {w}, mutex := Held(w, ev, s.subs), published := s.published + [ev])
    case Send(w) =>
      var c := s.mutex.todo[0];
      s.(mutex := s.mutex.(todo := s.mutex.todo[1..]),
         channels := s.channels[c := Offer(s.channels[c], s.mutex.ev)],
         panicked := s.channels[c].phase.Closed?)
    case Unlock(w) => s.(mutex := Free)
    case Subscribe(c) => AddSubscriber(s, c)
    case Cancel(c) => s.(channels := s.channels[c := s.channels[c].(phase := Cancelled)])
    case Unsubscribe(c) =>
      s.(subs := Without(s.subs, c), channels := s.channels[c := s.channels[c].(phase := Removed)])
    case Close(c) => s.(channels := s.channels[c := s.channels[c].(phase := Closed)])
    case Receive(c) => s.(channels := s.channels[c := Take(s.channels[c])])
    case GatewayStart => AddSubscriber(s, GATEWAY).(gateway := Reading(0, map[]), unannounced := false)
    case GatewayReceive =>
      s.(channels := s.channels[GATEWAY := Take(s.channels[GATEWAY])], gateway := Reading(0, map[]), unannounced := false)
    case GatewayRead =>
      var k := ORDER[s.gateway.done];
      s.(gateway := Reading(s.gateway.done + 1, s.gateway.got[k := Get(s.store, k)]))
    case GatewayFail => s.(gateway := Waiting(false))
    case GatewaySwap =>
      s.(gateway := Swapped(s.gateway.got),
         applied := s.gateway.got[Listeners := Get(s.applied, Listeners)])
    case GatewayReconcile =>
      s.(gateway := Waiting(true), applied := s.applied[Listeners := Get(s.gateway.got, Listeners)])
    case GatewayStop => s.(gateway := Stopped)
  }

  /** A run: states linked by enabled steps, from an initial state. */
  predicate IsRun(run: seq<State>, steps: seq<Step>) {
    && |run| == |steps| + 1
    && Initial(run[0])
    && forall i :: 0 <= i < |steps| ==> Enabled(run[i], steps[i]) && run[i + 1] == Apply(run[i], steps[i])
  }

  // ----- Subscriber bookkeeping -----

  predicate NoDuplicates(subs: seq<SubId>) {
    forall i, j :: 0 <= i < j < |subs| ==> subs[i] != subs[j]
  }

  predicate Subscribed(s: State, c: SubId) {
    c in s.channels && (s.channels[c].phase.Open? || s.channels[c].phase.Cancelled?)
  }

  ghost predicate InvSubs(s: State) {
    && !s.panicked
    && NoDuplicates(s.subs)
    && (forall c :: c in s.subs <==> Subscribed(s, c))
    && (s.mutex.Held? ==> NoDuplicates(s.mutex.todo) && forall c :: c in s.mutex.todo ==> c in s.subs)
    && (s.gateway.NotStarted? <==> GATEWAY !in s.channels)
  }

  lemma {:induction false} WithoutMembers(subs: seq<SubId>, c: SubId)
    requires NoDuplicates(subs)
    ensures NoDuplicates(Without(subs, c))
    ensures forall d :: d in Without(subs, c) <==> d in subs && d != c
  {
    if subs != [] {
      WithoutMembers(subs[1..], c);
      assert forall d :: d in subs <==> d == subs[0] || d in subs[1..];
      if subs[0] != c {
        assert subs[0] !in subs[1..];
      }
    }
  }

  lemma JoinKeepsSubs(s: State, c: SubId)
    requires InvSubs(s) && c !in s.channels && s.mutex.Free?
    requires c == GATEWAY ==> s.gateway.NotStarted?
    ensures var s' := AddSubscriber(s, c);
      NoDuplicates(s'.subs) && forall d :: d in s'.subs <==> Subscribed(s', d)
  {
    assert c !in s.subs;
  }

  lemma LeaveKeepsSubs(s: State, c: SubId)
    requires InvSubs(s) && Enabled(s, Unsubscribe(c))
    ensures InvSubs(Apply(s, Unsubscribe(c)))
  {
    WithoutMembers(s.subs, c);
  }

  lemma SendKeepsSubs(s: State, w: WriterId)
    requires InvSubs(s) && Enabled(s, Send(w))
    ensures InvSubs(Apply(s, Send(w)))
  {
    assert s.mutex.todo[0] in s.subs;
  }

  lemma SubsKept(s: State, a: Step)
    requires InvSubs(s) && Enabled(s, a)
    ensures InvSubs(Apply(s, a))
  {
    match a
    case Subscribe(c) => JoinKeepsSubs(s, c);
    case GatewayStart => JoinKeepsSubs(s, GATEWAY);
    case Send(w) => SendKeepsSubs(s, w);
    case Unsubscribe(c) => LeaveKeepsSubs(s, c);
    case _ =>
  }

  // ----- Streams -----

  function Sent(log: seq<Delivery>): seq<Event> {
    if log == [] then []
    else
      var d := log[|log| - 1];
      Sent(log[..|log| - 1]) + if d.sent then [d.ev] else []
  }

  /** What a subscriber got, in order, is what was published since it subscribed, minus the events
      that met a channel already holding 32. */
  ghost predicate Faithful(ch: Channel, published: seq<Event>) {
    && ch.start + |ch.log| <= |published|
    && (forall i :: 0 <= i < |ch.log| ==> ch.log[i].ev == published[ch.start + i])
    && (forall i :: 0 <= i < |ch.log| ==> ch.log[i].sent == (ch.log[i].depth < CAPACITY))
    && ch.received + ch.queue == Sent(ch.log)
    && |ch.queue| <= CAPACITY
  }

  /** A subscriber still on the list has been offered every event but the one being sent now. */
  ghost predicate UpToDate(s: State, c: SubId)
    requires c in s.channels
  {
    c in s.subs ==>
      s.channels[c].start + |s.channels[c].log| == |s.published| - if s.mutex.Held? && c in s.mutex.todo then 1 else 0
  }

  ghost predicate InvStreams(s: State) {
    && (forall c :: c in s.channels ==> Faithful(s.channels[c], s.published) && UpToDate(s, c))
    && (s.mutex.Held? ==> s.published != [] && s.published[|s.published| - 1] == s.mutex.ev)
  }

  lemma SentLast(log: seq<Delivery>, d: Delivery)
    ensures Sent(log + [d]) == Sent(log) + if d.sent then [d.ev] else []
  {
    assert (log + [d])[..|log|] == log;
  }

  lemma FaithfulOffer(ch: Channel, published: seq<Event>)
    requires Faithful(ch, published) && ch.start + |ch.log| == |published| - 1
    ensures Faithful(Offer(ch, published[|published| - 1]), published)
  {
    var ch' := Offer(ch, published[|published| - 1]);
    SentOffer(ch, published[|published| - 1]);
    forall i | 0 <= i < |ch'.log|
      ensures ch'.log[i].ev == published[ch'.start + i] && ch'.log[i].sent == (ch'.log[i].depth < CAPACITY)
    {
      assert i < |ch.log| ==> ch'.log[i] == ch.log[i];
    }
  }

  lemma SentOffer(ch: Channel, ev: Event)
    requires ch.received + ch.queue == Sent(ch.log)
    ensures Offer(ch, ev).received + Offer(ch, ev).queue == Sent(Offer(ch, ev).log)
  {
    SentLast(ch.log, Delivery(ev, |ch.queue|, |ch.queue| < CAPACITY));
    Associative(ch.received, ch.queue, [ev]);
  }

  lemma FaithfulTake(ch: Channel, published: seq<Event>)
    requires Faithful(ch, published) && ch.queue != []
    ensures Faithful(Take(ch), published)
  {
    assert ch.queue == [ch.queue[0]] + ch.queue[1..];
  }

  lemma FaithfulInAnyPhase(ch: Channel, phase: Phase, published: seq<Event>)
    requires Faithful(ch, published)
    ensures Faithful(ch.(phase := phase), published)
  {
  }

  lemma FaithfulLater(ch: Channel, published: seq<Event>, ev: Event)
    requires Faithful(ch, published)
    ensures Faithful(ch, published + [ev])
  {
  }

  /** The only things a step can do to a channel. */
  lemma ChannelChange(s: State, a: Step, c: SubId)
    requires Enabled(s, a) && c in s.channels
    ensures var ch, ch' := s.channels[c], Apply(s, a).channels[c];
      if a.Lock? then ch' == ch
      else if a.Send? && c == s.mutex.todo[0] then ch' == Offer(ch, s.mutex.ev)
      else ch' == ch.(phase := ch'.phase) || (ch.queue != [] && ch' == Take(ch))
    ensures Apply(s, a).published == s.published + if a.Lock? then [s.pending[a.w]] else []
  {
  }

  /** A channel that nothing, an offer of the last published event, a receive or a change of phase happened to. */
  lemma FaithfulChanged(ch: Channel, published: seq<Event>, ch': Channel, published': seq<Event>, offered: bool)
    requires Faithful(ch, published)
    requires published' != published ==> ch' == ch && exists ev :: published' == published + [ev]
    requires offered ==> published' == published && ch.start + |ch.log| == |published| - 1
    requires offered ==> ch' == Offer(ch, published[|published| - 1])
    requires !offered ==> ch' == ch.(phase := ch'.phase) || (ch.queue != [] && ch' == Take(ch))
    ensures Faithful(ch', published')
  {
    if published' != published {
      var ev :| published' == published + [ev];
      FaithfulLater(ch, published, ev);
    } else if offered {
      FaithfulOffer(ch, published);
    } else if ch' == ch.(phase := ch'.phase) {
      FaithfulInAnyPhase(ch, ch'.phase, published);
    } else {
      FaithfulTake(ch, published);
    }
  }

  lemma FaithfulKept(s: State, a: Step, c: SubId)
    requires Enabled(s, a) && c in s.channels && Faithful(s.channels[c], s.published) && UpToDate(s, c)
    requires s.mutex.Held? ==> s.published != [] && s.published[|s.published| - 1] == s.mutex.ev
    requires s.mutex.Held? && c in s.mutex.todo ==> c in s.subs
    ensures Faithful(Apply(s, a).channels[c], Apply(s, a).published)
  {
    ChannelChange(s, a, c);
    var offered := a.Send? && c == s.mutex.todo[0];
    FaithfulChanged(s.channels[c], s.published, Apply(s, a).channels[c], Apply(s, a).published, offered);
  }

  lemma UpToDateKept(s: State, a: Step, c: SubId)
    requires InvSubs(s) && Enabled(s, a) && c in s.channels && UpToDate(s, c)
    ensures UpToDate(Apply(s, a), c)
  {
    match a
    case Send(w) =>
      var d, rest := s.mutex.todo[0], s.mutex.todo[1..];
      assert c in s.mutex.todo <==> c == d || c in rest;
      assert d !in rest;
    case Unsubscribe(d) => WithoutMembers(s.subs, d);
    case _ =>
  }

  lemma StreamsKept(s: State, a: Step)
    requires InvSubs(s) && InvStreams(s) && Enabled(s, a)
    ensures InvStreams(Apply(s, a))
  {
    var s' := Apply(s, a);
    forall c | c in s'.channels ensures Faithful(s'.channels[c], s'.published) && UpToDate(s', c) {
      if c in s.channels {
        FaithfulKept(s, a, c);
        UpToDateKept(s, a, c);
      } else {
        assert s'.channels[c].log == [] && s'.published == s.published && s.mutex.Free?;
      }
    }
  }

  // ----- Freshness -----

  /** What the gateway holds for a kind: the value read by the rebuild in progress, or else the
      value it last applied. */
  function View(s: State, k: Kind): Bucket {
    match s.gateway
    case Reading(done, got) => if Rank(k) < done then Get(got, k) else Get(s.applied, k)
    case Swapped(got) => Get(got, k)
    case _ => Get(s.applied, k)
  }

  predicate StillToRead(s: State, k: Kind) {
    s.gateway.Reading? && s.gateway.done <= Rank(k)
  }

  /** Something will still wake the gateway: a commit whose event has not been offered to it, or a
      queued event. */
  ghost predicate WakeUpDue(s: State)
    requires GATEWAY in s.channels
  {
    || s.pending != map[]
    || (s.mutex.Held? && GATEWAY in s.mutex.todo)
    || s.channels[GATEWAY].queue != []
  }

  predicate Running(s: State) {
    GATEWAY in s.subs && GATEWAY in s.channels && !s.gateway.NotStarted? && !s.gateway.Stopped?
  }

  ghost predicate InvFresh(s: State) {
    && (s.gateway.Reading? ==> s.gateway.done <= |ORDER|)
    && (s.gateway.Swapped? ==> forall k :: k != Listeners ==> Get(s.applied, k) == Get(s.gateway.got, k))
    && (Running(s) && s.gateway != Waiting(false) && !WakeUpDue(s) && !s.unannounced ==> FreshView(s))
  }

  /** What the gateway holds or is still to read is what the store holds. */
  ghost predicate FreshView(s: State) {
    forall k :: StillToRead(s, k) || View(s, k) == Get(s.store, k)
  }

  lemma ReadKeepsFresh(s: State)
    requires InvFresh(s) && Enabled(s, GatewayRead)
    ensures InvFresh(Apply(s, GatewayRead))
  {
    assert Rank(ORDER[s.gateway.done]) == s.gateway.done;
  }

  lemma SwapKeepsFresh(s: State)
    requires InvFresh(s) && Enabled(s, GatewaySwap)
    ensures InvFresh(Apply(s, GatewaySwap))
  {
  }

  lemma ReconcileKeepsFresh(s: State)
    requires InvFresh(s) && Enabled(s, GatewayReconcile)
    ensures InvFresh(Apply(s, GatewayReconcile))
  {
  }

  lemma PublishKeepsFresh(s: State, a: Step)
    requires InvSubs(s) && InvFresh(s) && Enabled(s, a) && (a.Commit? || a.Lock? || a.Send?)
    ensures InvFresh(Apply(s, a))
  {
    var s' := Apply(s, a);
    match a
    case Commit(w, _, _, _) => assert w in s'.pending;
    case Lock(w) => assert GATEWAY in s.subs ==> GATEWAY in s'.mutex.todo;
    case Send(w) =>
      assert GATEWAY in s.mutex.todo ==> GATEWAY == s.mutex.todo[0] || GATEWAY in s'.mutex.todo;
  }

  lemma SubscribersKeepFresh(s: State, a: Step)
    requires InvSubs(s) && InvFresh(s) && Enabled(s, a)
    requires a.Subscribe? || a.Unsubscribe? || a.Cancel? || a.Close? || a.Receive?
    ensures InvFresh(Apply(s, a))
  {
    if a.Unsubscribe? {
      WithoutMembers(s.subs, a.c);
    }
  }

  lemma FreshKept(s: State, a: Step)
    requires InvSubs(s) && InvFresh(s) && Enabled(s, a)
    ensures InvFresh(Apply(s, a))
  {
    if a.Subscribe? || a.Unsubscribe? || a.Cancel? || a.Close? || a.Receive? {
      SubscribersKeepFresh(s, a);
    } else if a.Commit? || a.Lock? || a.Send? {
      PublishKeepsFresh(s, a);
    } else {
      match a
      case GatewayRead => ReadKeepsFresh(s);
      case GatewaySwap => SwapKeepsFresh(s);
      case GatewayReconcile => ReconcileKeepsFresh(s);
      case _ =>
    }
  }

  // ----- Whole runs -----

  ghost predicate Inv(s: State) {
    InvSubs(s) && InvStreams(s) && InvFresh(s)
  }

  lemma {:induction false} RunKeepsInv(run: seq<State>, steps: seq<Step>, i: nat)
    requires IsRun(run, steps) && i < |run|
    ensures Inv(run[i])
  {
    if i > 0 {
      RunKeepsInv(run, steps, i - 1);
      SubsKept(run[i - 1], steps[i - 1]);
      StreamsKept(run[i - 1], steps[i - 1]);
      FreshKept(run[i - 1], steps[i - 1]);
    }
  }

  /** No writer is between its commit and the end of its publish. */
  predicate WritersQuiet(s: State) {
    s.pending == map[] && s.mutex.Free?
  }

  /** Whether the store counts as restored silently after a step, given that it did or did not before. */
  function Silent(before: bool, a: Step): bool {
    if a.Restore? then true
    else if a.Commit? || a.GatewayStart? || a.GatewayReceive? then false
    else before
  }

  /** The store was restored after the last commit and after the gateway last began to read. */
  predicate RestoredSilently(steps: seq<Step>) {
    steps != [] && Silent(RestoredSilently(steps[..|steps| - 1]), steps[|steps| - 1])
  }

  lemma SilentStep(s: State, a: Step)
    requires Enabled(s, a)
    ensures Apply(s, a).unannounced == Silent(s.unannounced, a)
  {
  }

  lemma {:induction false} UnannouncedIff(run: seq<State>, steps: seq<Step>, i: nat)
    requires IsRun(run, steps) && i < |run|
    ensures run[i].unannounced <==> RestoredSilently(steps[..i])
  {
    if i > 0 {
      UnannouncedIff(run, steps, i - 1);
      SilentStep(run[i - 1], steps[i - 1]);
      assert steps[..i][..i - 1] == steps[..i - 1];
    }
  }

  // ----- The store and the events, from the steps alone -----

  /** What is stored under an identifier after these steps: what the last commit to it saved, unless a later restore
      replaced its bucket; and what was there at first if there was neither. */
  function Written(init: Contents, steps: seq<Step>, k: Kind, id: string): Option<string> {
    if steps == [] then Lookup(init, k, id)
    else
      var before := Written(init, steps[..|steps| - 1], k, id);
      match steps[|steps| - 1]
      case Commit(_, r, i, v) => if r == Config(k) && i == id then v else before
      case Restore(dump) => if k in dump then Lookup(dump, k, id) else before
      case _ => before
  }

  function Lookup(m: Contents, k: Kind, id: string): Option<string> {
    if k in m && id in m[k] then Some(m[k][id]) else None
  }

  /** In every run the store holds what was last written, for every kind and identifier. */
  lemma {:induction false} StoreIsWritten(run: seq<State>, steps: seq<Step>, i: nat, k: Kind, id: string)
    requires IsRun(run, steps) && i < |run|
    ensures Lookup(run[i].store, k, id) == Written(run[0].store, steps[..i], k, id)
  {
    if i > 0 {
      StoreIsWritten(run, steps, i - 1, k, id);
      assert steps[..i][..i - 1] == steps[..i - 1];
      WriteStep(run[i - 1], steps[i - 1], k, id);
    }
  }

  /** What a step does to the store and to the events. */
  lemma StepWrites(s: State, a: Step)
    requires Enabled(s, a)
    ensures !a.Commit? && !a.Restore? ==> Apply(s, a).store == s.store
    ensures Apply(s, a).pending ==
      if a.Commit? then s.pending[a.w := Event(a.resource, a.id)] else if a.Lock? then s.pending - {a.w} else s.pending
    ensures Apply(s, a).published == s.published + if a.Lock? then [s.pending[a.w]] else []
  {
  }

  lemma CommitWrites(s: State, a: Step, k: Kind, id: string)
    requires Enabled(s, a) && a.Commit?
    ensures Lookup(Apply(s, a).store, k, id) ==
      if a.resource == Config(k) && a.id == id then a.value else Lookup(s.store, k, id)
  {
  }

  lemma WriteStep(s: State, a: Step, k: Kind, id: string)
    requires Enabled(s, a)
    ensures Lookup(Apply(s, a).store, k, id) ==
      match a
      case Commit(_, r, i, v) => if r == Config(k) && i == id then v else Lookup(s.store, k, id)
      case Restore(dump) => if k in dump then Lookup(dump, k, id) else Lookup(s.store, k, id)
      case _ => Lookup(s.store, k, id)
  {
    if a.Commit? {
      CommitWrites(s, a, k, id);
    } else if !a.Restore? {
      StepWrites(s, a);
    }
  }

  /** The event of a writer's last commit. */
  function LastCommit(steps: seq<Step>, w: WriterId): Option<Event> {
    if steps == [] then None
    else
      match steps[|steps| - 1]
      case Commit(x, r, id, _) => if x == w then Some(Event(r, id)) else LastCommit(steps[..|steps| - 1], w)
      case _ => LastCommit(steps[..|steps| - 1], w)
  }

  /** The event of every writer that began to publish, in the order in which they began. */
  function Announced(steps: seq<Step>): seq<Option<Event>> {
    if steps == [] then []
    else
      var rest := steps[..|steps| - 1];
      match steps[|steps| - 1]
      case Lock(w) => Announced(rest) + [LastCommit(rest, w)]
      case _ => Announced(rest)
  }

  lemma {:induction false} PendingIsCommitted(run: seq<State>, steps: seq<Step>, i: nat, w: WriterId)
    requires IsRun(run, steps) && i < |run| && w in run[i].pending
    ensures LastCommit(steps[..i], w) == Some(run[i].pending[w])
  {
    if i > 0 {
      assert steps[..i][..i - 1] == steps[..i - 1];
      StepWrites(run[i - 1], steps[i - 1]);
      if !(steps[i - 1].Commit? && steps[i - 1].w == w) {
        PendingIsCommitted(run, steps, i - 1, w);
      }
    }
  }

  /** In every run what is published is what was committed: one event for each writer that began to publish, that of
      its last commit. */
  lemma {:induction false} PublishedIsAnnounced(run: seq<State>, steps: seq<Step>, i: nat)
    requires IsRun(run, steps) && i < |run|
    ensures |run[i].published| == |Announced(steps[..i])|
    ensures forall j :: 0 <= j < |run[i].published| ==> Announced(steps[..i])[j] == Some(run[i].published[j])
  {
    if i > 0 {
      PublishedIsAnnounced(run, steps, i - 1);
      assert steps[..i][..i - 1] == steps[..i - 1];
      StepWrites(run[i - 1], steps[i - 1]);
      if steps[i - 1].Lock? {
        PendingIsCommitted(run, steps, i - 1, steps[i - 1].w);
      }
    }
  }

  /** Dropped events never lose the final state: in every run, whenever the writers are quiet, the
      gateway's channel is empty and the gateway waits after a successful rebuild, the applied
      configuration is the store's, for all five kinds, unless the store was restored silently. What it holds under
      each identifier is what was last written there. */
  lemma QuietGatewayIsCurrent(run: seq<State>, steps: seq<Step>, i: nat)
    requires IsRun(run, steps) && i < |run| && Running(run[i])
    requires WritersQuiet(run[i]) && run[i].channels[GATEWAY].queue == [] && run[i].gateway == Waiting(true)
    ensures RestoredSilently(steps[..i]) || forall k :: Get(run[i].applied, k) == Get(run[i].store, k)
    ensures RestoredSilently(steps[..i]) ||
      forall k, id :: Lookup(run[i].applied, k, id) == Written(run[0].store, steps[..i], k, id)
  {
    RunKeepsInv(run, steps, i);
    UnannouncedIff(run, steps, i);
    if !run[i].unannounced {
      forall k ensures Get(run[i].applied, k) == Get(run[i].store, k) {
        assert !StillToRead(run[i], k);
      }
      forall k, id ensures Lookup(run[i].applied, k, id) == Written(run[0].store, steps[..i], k, id) {
        assert Get(run[i].applied, k) == Get(run[i].store, k);
        StoreIsWritten(run, steps, i, k, id);
      }
    }
  }

  /** In every run no event is sent on a closed channel and the subscriber list has no duplicates. */
  lemma SubscriptionsSafe(run: seq<State>, steps: seq<Step>, i: nat)
    requires IsRun(run, steps) && i < |run|
    ensures !run[i].panicked && NoDuplicates(run[i].subs)
    ensures forall c :: c in run[i].channels && run[i].channels[c].phase.Closed? ==>
      c !in run[i].subs && (run[i].mutex.Held? ==> c !in run[i].mutex.todo)
  {
    RunKeepsInv(run, steps, i);
  }

  /** In every run no writer is held up, however slow the subscribers are: an idle one can commit, one that has
      committed can begin to publish as soon as the lock is free, and the one that publishes can go on. */
  lemma NeverBlocks(run: seq<State>, steps: seq<Step>, i: nat, w: WriterId, r: Resource, id: string, x: string)
    requires IsRun(run, steps) && i < |run|
    ensures var s := run[i];
      if w in s.pending then s.mutex.Free? ==> Enabled(s, Lock(w))
      else if s.mutex.Held? && s.mutex.w == w then Enabled(s, Send(w)) || Enabled(s, Unlock(w))
      else Enabled(s, Commit(w, r, id, Some(x)))
  {
    RunKeepsInv(run, steps, i);
    var s := run[i];
    assert s.mutex.Held? && s.mutex.todo != [] ==> s.mutex.todo[0] in s.mutex.todo;
  }

  /** In every run each subscriber's stream is the published events from its subscription on, with
      gaps only where 32 events were already queued. */
  lemma StreamsAreFaithful(run: seq<State>, steps: seq<Step>, i: nat, c: SubId)
    requires IsRun(run, steps) && i < |run| && c in run[i].channels
    ensures var s, ch := run[i], run[i].channels[c];
      && ch.received + ch.queue == Sent(ch.log)
      && ch.start + |ch.log| <= |s.published|
      && (forall j :: 0 <= j < |ch.log| ==>
            ch.log[j].ev == s.published[ch.start + j] && (!ch.log[j].sent ==> ch.log[j].depth >= 32))
      && (c in s.subs && s.mutex.Free? ==> ch.start + |ch.log| == |s.published|)
  {
    RunKeepsInv(run, steps, i);
    assert Faithful(run[i].channels[c], run[i].published) && UpToDate(run[i], c);
  }

  // ----- Catching up -----

  predicate RebuildStep(a: Step) {
    a.GatewayReceive? || a.GatewayRead? || a.GatewaySwap? || a.GatewayReconcile?
  }

  /** The gateway alone can take these steps. */
  predicate Rebuilds(s: State, steps: seq<Step>)
    decreases |steps|
  {
    steps == [] || (RebuildStep(steps[0]) && Enabled(s, steps[0]) && Rebuilds(Apply(s, steps[0]), steps[1..]))
  }

  function RunSteps(s: State, steps: seq<Step>): State
    requires Rebuilds(s, steps)
    decreases |steps|
  {
    if steps == [] then s else RunSteps(Apply(s, steps[0]), steps[1..])
  }

  ghost predicate Current(s: State) {
    forall k :: Get(s.applied, k) == Get(s.store, k)
  }

  function Remaining(g: Gateway): nat {
    match g
    case Reading(done, _) => if done <= 5 then 7 - done else 2
    case Swapped(_) => 1
    case _ => 0
  }

  lemma ReadKeepsView(s: State)
    requires Enabled(s, GatewayRead)
    ensures FreshView(Apply(s, GatewayRead)) <==> FreshView(s)
  {
    var s', kind := Apply(s, GatewayRead), ORDER[s.gateway.done];
    assert Rank(kind) == s.gateway.done;
    assert forall k :: k != kind ==> (StillToRead(s', k) <==> StillToRead(s, k)) && View(s', k) == View(s, k);
    assert StillToRead(s, kind) && View(s', kind) == Get(s'.store, kind);
  }

  lemma SwapKeepsView(s: State)
    requires Enabled(s, GatewaySwap)
    ensures FreshView(Apply(s, GatewaySwap)) <==> FreshView(s)
  {
    var s' := Apply(s, GatewaySwap);
    assert forall k :: !StillToRead(s, k) && View(s', k) == View(s, k);
  }

  lemma ReconcileKeepsView(s: State)
    requires InvFresh(s) && Enabled(s, GatewayReconcile)
    ensures FreshView(Apply(s, GatewayReconcile)) <==> FreshView(s)
  {
    var s' := Apply(s, GatewayReconcile);
    assert forall k :: View(s', k) == View(s, k);
  }

  /** The steps of a rebuild in progress keep what is fresh and what is not. */
  lemma RebuildKeepsView(s: State, a: Step)
    requires InvFresh(s) && Enabled(s, a) && (a.GatewayRead? || a.GatewaySwap? || a.GatewayReconcile?)
    ensures FreshView(Apply(s, a)) <==> FreshView(s)
  {
    match a
    case GatewayRead => ReadKeepsView(s);
    case GatewaySwap => SwapKeepsView(s);
    case GatewayReconcile => ReconcileKeepsView(s);
  }

  lemma InvStep(s: State, a: Step)
    requires Inv(s) && Enabled(s, a)
    ensures Inv(Apply(s, a))
  {
    SubsKept(s, a);
    StreamsKept(s, a);
    FreshKept(s, a);
  }

  /** The gateway is awake or will be woken by a queued event, and what it holds is not stale unless it will be. */
  ghost predicate Catching(s: State) {
    Inv(s) && WritersQuiet(s) && Running(s) && (s.channels[GATEWAY].queue != [] || FreshView(s))
  }

  function NextRebuildStep(g: Gateway): Step {
    match g
    case Reading(done, _) => if done < |ORDER| then GatewayRead else GatewaySwap
    case Swapped(_) => GatewayReconcile
    case _ => GatewayReceive
  }

  lemma CatchUpStep(s: State)
    requires Catching(s) && !(s.gateway.Waiting? && s.channels[GATEWAY].queue == [])
    ensures var a := NextRebuildStep(s.gateway);
      && RebuildStep(a) && Enabled(s, a) && Catching(Apply(s, a))
      && (if a == GatewayReceive
          then |Apply(s, a).channels[GATEWAY].queue| < |s.channels[GATEWAY].queue|
          else Apply(s, a).channels == s.channels && Remaining(Apply(s, a).gateway) < Remaining(s.gateway))
  {
    var a := NextRebuildStep(s.gateway);
    InvStep(s, a);
    if a != GatewayReceive {
      RebuildKeepsView(s, a);
    }
  }

  lemma CatchUp(s: State) returns (steps: seq<Step>)
    requires Catching(s)
    ensures Rebuilds(s, steps) && RunSteps(s, steps).gateway.Waiting? && Current(RunSteps(s, steps))
    decreases |s.channels[GATEWAY].queue|, Remaining(s.gateway)
  {
    if s.gateway.Waiting? && s.channels[GATEWAY].queue == [] {
      steps := [];
      forall k ensures Get(s.applied, k) == Get(s.store, k) {
        assert !StillToRead(s, k);
      }
      assert Current(s);
    } else {
      var a := NextRebuildStep(s.gateway);
      CatchUpStep(s);
      var rest := CatchUp(Apply(s, a));
      steps := [a] + rest;
      assert steps[1..] == rest;
    }
  }

  /** The gateway alone can come to rest with the store's configuration applied. */
  ghost predicate CanCatchUp(s: State) {
    exists steps :: Rebuilds(s, steps) && RunSteps(s, steps).gateway.Waiting? && Current(RunSteps(s, steps))
  }

  lemma {:induction false} StaysBehind(s: State, steps: seq<Step>)
    requires Inv(s) && Running(s) && s.channels[GATEWAY].queue == [] && !FreshView(s) && Rebuilds(s, steps)
    ensures !(RunSteps(s, steps).gateway.Waiting? && Current(RunSteps(s, steps)))
    decreases |steps|
  {
    if steps == [] {
      var k :| !StillToRead(s, k) && View(s, k) != Get(s.store, k);
      assert s.gateway.Waiting? ==> Get(s.applied, k) != Get(s.store, k);
    } else {
      InvStep(s, steps[0]);
      RebuildKeepsView(s, steps[0]);
      StaysBehind(Apply(s, steps[0]), steps[1..]);
    }
  }

  /** From a quiet state the gateway alone can bring the applied configuration up to the store's exactly when an
      event is queued or nothing it holds is stale. It cannot only after a rebuild that failed, which is not
      retried, or after the store was restored, which is not announced. */
  lemma CatchesUpIff(run: seq<State>, steps: seq<Step>, i: nat)
    requires IsRun(run, steps) && i < |run| && Running(run[i]) && WritersQuiet(run[i])
    ensures CanCatchUp(run[i]) <==> run[i].channels[GATEWAY].queue != [] || FreshView(run[i])
    ensures !CanCatchUp(run[i]) ==> run[i].gateway == Waiting(false) || RestoredSilently(steps[..i])
  {
    RunKeepsInv(run, steps, i);
    UnannouncedIff(run, steps, i);
    if run[i].channels[GATEWAY].queue != [] || FreshView(run[i]) {
      var more := CatchUp(run[i]);
    } else {
      forall more | Rebuilds(run[i], more)
        ensures !(RunSteps(run[i], more).gateway.Waiting? && Current(RunSteps(run[i], more)))
      {
        StaysBehind(run[i], more);
      }
    }
  }

  function Fresh(store: Contents): State {
    State(store, map[], Free, [], map[], [], NotStarted, map[], false, false)
  }

  /** The gateway's first rebuild fails while the store already holds something, and no event follows. */
  lemma FailedRebuildIsStuck(store: Contents)
    requires exists k :: Get(store, k) != map[]
    ensures exists run: seq<State>, steps: seq<Step> ::
      && IsRun(run, steps) && |run| == 3 && run[2].store == store
      && Running(run[2]) && WritersQuiet(run[2]) && !CanCatchUp(run[2])
  {
    var s0 := Fresh(store);
    var s1 := Apply(s0, GatewayStart);
    var s2 := Apply(s1, GatewayFail);
    var run, steps := [s0, s1, s2], [GatewayStart, GatewayFail];
    assert IsRun(run, steps);
    var k :| Get(store, k) != map[];
    assert !StillToRead(s2, k) && View(s2, k) == map[];
    CatchesUpIff(run, steps, 2);
  }

  lemma ExtendOne(run: seq<State>, steps: seq<Step>, a: Step)
    requires IsRun(run, steps) && Enabled(run[|steps|], a)
    ensures IsRun(run + [Apply(run[|steps|], a)], steps + [a])
  {
    var run', steps' := run + [Apply(run[|steps|], a)], steps + [a];
    forall i | 0 <= i < |steps'| ensures Enabled(run'[i], steps'[i]) && run'[i + 1] == Apply(run'[i], steps'[i]) {
      assert i < |steps| ==> run'[i] == run[i] && run'[i + 1] == run[i + 1] && steps'[i] == steps[i];
    }
  }

  lemma {:induction false} Extend(run: seq<State>, steps: seq<Step>, more: seq<Step>) returns (run': seq<State>)
    requires IsRun(run, steps) && Rebuilds(run[|steps|], more)
    ensures IsRun(run', steps + more) && run'[|steps + more|] == RunSteps(run[|steps|], more)
    decreases |more|
  {
    if more == [] {
      run' := run;
      assert steps + more == steps;
    } else {
      var next, first, rest := Apply(run[|steps|], more[0]), more[0], more[1..];
      ExtendOne(run, steps, first);
      assert steps + [first] + rest == steps + more by {
        Associative(steps, [first], rest);
        assert [first] + rest == more;
      }
      run' := Extend(run + [next], steps + [first], rest);
    }
  }

  lemma {:induction false} RebuildsLeave(s: State, steps: seq<Step>)
    requires Rebuilds(s, steps) && Running(s) && s.channels[GATEWAY].queue == [] && WritersQuiet(s)
    ensures var e := RunSteps(s, steps);
      && e.store == s.store && Running(e) && e.channels[GATEWAY].queue == [] && WritersQuiet(e)
      && (s.gateway != Waiting(false) ==> e.gateway != Waiting(false))
    decreases |steps|
  {
    if steps != [] {
      RebuildsLeave(Apply(s, steps[0]), steps[1..]);
    }
  }

  /** The gateway at rest with the store's configuration applied. */
  ghost predicate AtRest(s: State, store: Contents) {
    && s.store == store && Running(s) && WritersQuiet(s) && s.channels[GATEWAY].queue == []
    && s.gateway == Waiting(true) && Current(s) && !s.panicked
  }

  lemma StartsCurrent(store: Contents) returns (run: seq<State>, steps: seq<Step>)
    ensures IsRun(run, steps) && AtRest(run[|steps|], store)
  {
    var s0 := Fresh(store);
    var s1 := Apply(s0, GatewayStart);
    var run1, steps1 := [s0, s1], [GatewayStart];
    assert IsRun(run1, steps1);
    RunKeepsInv(run1, steps1, 1);
    var more := CatchUp(s1);
    RebuildsLeave(s1, more);
    run := Extend(run1, steps1, more);
    steps := steps1 + more;
    RunKeepsInv(run, steps, |steps|);
  }

  /** The gateway has caught up and waits; then the store is restored to something else, and no event follows. */
  lemma RestoreIsStuck(store: Contents, dump: Contents)
    requires exists k :: Get(store + dump, k) != Get(store, k)
    ensures exists run: seq<State>, steps: seq<Step> ::
      && IsRun(run, steps) && run[|steps|].store == store + dump && run[|steps|].gateway == Waiting(true)
      && Running(run[|steps|]) && WritersQuiet(run[|steps|]) && !CanCatchUp(run[|steps|])
  {
    var before, taken := StartsCurrent(store);
    var idle := before[|taken|];
    var last := Apply(idle, Restore(dump));
    var run, steps := before + [last], taken + [Restore(dump)];
    ExtendOne(before, taken, Restore(dump));
    var k :| Get(store + dump, k) != Get(store, k);
    assert !StillToRead(last, k) && View(last, k) == Get(store, k);
    CatchesUpIff(run, steps, |steps|);
  }
}
