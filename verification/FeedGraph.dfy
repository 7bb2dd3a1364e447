/**
 * Providers and consumers of frames. Each side keeps a map of the other; registering and deregistering is a
 * handshake in which either side calls the other back. A public call is one atomic step.
 */
module FeedGraph {

  datatype Option<T> = None | Some(value: T)

  datatype MediaType = FRAME_TYPE_DATA | FRAME_TYPE_VIDEO | FRAME_TYPE_AUDIO

  datatype Frame = Frame(id: nat, mediaType: MediaType)

  /** How a provider serves a consumer: whether frames are queued, may be polled, and which comparators must accept. */
  datatype FeedLink = FeedLink(queued: bool, polled: bool, comparators: seq<(Frame, FeedConsumer) -> bool>)

  const QUEUED_FEED_LINK: FeedLink := FeedLink(true, false, [])

  const MAX_QUEUE_SIZE: nat := 10000

  datatype ProviderState = PROV_ERROR | PROV_WAIT | PROV_READY | PROV_ENDED

  predicate Compare(link: FeedLink, frame: Frame, consumer: FeedConsumer) {
    forall i :: 0 <= i < |link.comparators| ==> link.comparators[i](frame, consumer)
  }

  /** Asks one comparator after the other; a link without any accepts. */
  method Accepts(link: FeedLink, frame: Frame, consumer: FeedConsumer) returns (accepted: bool)
    ensures accepted <==> forall i :: 0 <= i < |link.comparators| ==> link.comparators[i](frame, consumer)
  {
    var i := 0;
    while i < |link.comparators|
      invariant 0 <= i <= |link.comparators|
      invariant forall j :: 0 <= j < i ==> link.comparators[j](frame, consumer)
    {
      if !link.comparators[i](frame, consumer) {
        return false;
      }
      i := i + 1;
    }
    return true;
  }

  /** The link queues this frame for this consumer. */
  predicate Wants(link: FeedLink, frame: Frame, consumer: FeedConsumer) {
    link.queued && Compare(link, frame, consumer)
  }

  lemma WantsMeans(link: FeedLink, frame: Frame, consumer: FeedConsumer)
    ensures Wants(link, frame, consumer) <==>
      link.queued && forall i :: 0 <= i < |link.comparators| ==> link.comparators[i](frame, consumer)
  {
  }

  /** A half-edge that is there, counted. */
  ghost function Half(there: bool): nat {
    if there then 1 else 0
  }

  // ---------- polling, as a value ----------

  /** What decides a poll: the provider's state, whether it can be polled, and the last frame it kept. */
  datatype Feed = Feed(state: ProviderState, canPoll: bool, last: Option<Frame>)

  const NEW_FEED: Feed := Feed(PROV_WAIT, true, None)

  datatype FeedCall = Readying | Serving(frame: Frame) | SettingPolling(on: bool) | Failing | Ending

  function FeedStep(f: Feed, call: FeedCall): Feed {
    match call
    case Readying => f.(state := if f.state == PROV_WAIT then PROV_READY else f.state)
    case Serving(frame) =>
      f.(state := if f.state == PROV_WAIT then PROV_READY else f.state,
         last := if f.canPoll then Some(frame) else f.last)
    case SettingPolling(on) => f.(canPoll := on)
    case Failing => f.(state := PROV_ERROR)
    case Ending => f.(state := if f.state == PROV_ERROR then PROV_ERROR else PROV_ENDED)
  }

  function FeedRun(calls: seq<FeedCall>): Feed {
    if calls == [] then NEW_FEED else FeedStep(FeedRun(calls[..|calls| - 1]), calls[|calls| - 1])
  }

  function Polled(f: Feed): Option<Frame> {
    if f.state == PROV_READY && f.canPoll then f.last else None
  }

  /** Polling is on after the calls: the latest setting counts, and it is on at first. */
  predicate PollingOn(calls: seq<FeedCall>) {
    if calls == [] then true
    else
      var call := calls[|calls| - 1];
      if call.SettingPolling? then call.on else PollingOn(calls[..|calls| - 1])
  }

  /** Call i distributes a frame while polling is on. */
  predicate KeptAt(calls: seq<FeedCall>, i: int) {
    0 <= i < |calls| && calls[i].Serving? && PollingOn(calls[..i])
  }

  ghost predicate LastKept(calls: seq<FeedCall>, i: int) {
    KeptAt(calls, i) && forall j :: i < j ==> !KeptAt(calls, j)
  }

  ghost predicate Over(calls: seq<FeedCall>) {
    exists i :: 0 <= i < |calls| && (calls[i].Failing? || calls[i].Ending?)
  }

  ghost predicate Begun(calls: seq<FeedCall>) {
    exists i :: 0 <= i < |calls| && (calls[i].Readying? || calls[i].Serving?)
  }

  lemma {:induction false} FeedFollows(calls: seq<FeedCall>)
    ensures FeedRun(calls).canPoll == PollingOn(calls)
    ensures FeedRun(calls).state == PROV_READY <==> Begun(calls) && !Over(calls)
    ensures FeedRun(calls).state == PROV_WAIT <==> !Begun(calls) && !Over(calls)
    decreases |calls|
  {
    if calls != [] {
      var n := |calls| - 1;
      var before := calls[..n];
      FeedFollows(before);
      assert calls == before + [calls[n]];
      assert Begun(calls) <==> Begun(before) || calls[n].Readying? || calls[n].Serving?;
      assert Over(calls) <==> Over(before) || calls[n].Failing? || calls[n].Ending?;
    }
  }

  lemma KeptExtends(before: seq<FeedCall>, call: FeedCall, i: int)
    requires i < |before|
    ensures KeptAt(before + [call], i) == KeptAt(before, i)
  {
    if 0 <= i {
      assert (before + [call])[..i] == before[..i];
    }
  }

  lemma {:induction false} LastFollows(calls: seq<FeedCall>) returns (i: int)
    ensures if LastKept(calls, i) then FeedRun(calls).last == Some(calls[i].frame)
            else FeedRun(calls).last == None && forall j :: !KeptAt(calls, j)
    decreases |calls|
  {
    if calls == [] {
      i := -1;
    } else {
      var n := |calls| - 1;
      var before := calls[..n];
      assert calls == before + [calls[n]];
      i := LastFollows(before);
      FeedFollows(before);
      forall j | j < n ensures KeptAt(calls, j) == KeptAt(before, j) {
        KeptExtends(before, calls[n], j);
      }
      if KeptAt(calls, n) {
        i := n;
      }
    }
  }

  /**
   * In every run a poll returns the last frame that was distributed while polling was on, provided that polling
   * is on now and the provider has not ended or failed; it returns nothing otherwise.
   */
  lemma PollMeans(calls: seq<FeedCall>)
    ensures Polled(FeedRun(calls)) == None
      <==> !PollingOn(calls) || Over(calls) || forall i :: !KeptAt(calls, i)
    ensures forall i :: LastKept(calls, i) && PollingOn(calls) && !Over(calls) ==>
      Polled(FeedRun(calls)) == Some(calls[i].frame)
  {
    FeedFollows(calls);
    var i := LastFollows(calls);
    if LastKept(calls, i) {
      assert Begun(calls);
      assert forall j :: LastKept(calls, j) ==> j == i;
    }
  }

  class FeedConsumer {
    const mProviderLimit: nat
    var mProviders: map<FeedProvider, FeedLink>
    var mFrameQueue: seq<Frame>

    constructor (limit: nat)
      ensures mProviderLimit == limit && mProviders == map[] && mFrameQueue == []
    {
      mProviderLimit, mProviders, mFrameQueue := limit, map[], [];
    }

    /** A full consumer is a fatal error, even for a provider it already has. */
    method RegisterProvider(p: FeedProvider, link: FeedLink) returns (inserted: bool)
      requires |mProviders| < mProviderLimit
      requires p !in mProviders && this !in p.mConsumers && link.polled ==> p.mCanPoll
      modifies this`mProviders, p`mConsumers
      ensures inserted == (p !in old(mProviders))
      ensures mProviders == if inserted then old(mProviders)[p := link] else old(mProviders)
      ensures p.mConsumers ==
        if inserted && this !in old(p.mConsumers) then old(p.mConsumers)[this := link] else old(p.mConsumers)
      decreases Half(this !in p.mConsumers) + Half(p !in mProviders), 0
    {
      inserted := p !in mProviders;
      if inserted {
        mProviders := mProviders[p := link];
        if this !in p.mConsumers {
          var _ := p.RegisterConsumer(this, link);
        }
      }
    }

    method DeregisterProvider(p: FeedProvider, reciprocate: bool) returns (erased: bool)
      modifies this`mProviders, p`mConsumers
      ensures erased == (p in old(mProviders))
      ensures mProviders == old(mProviders) - {p}
      ensures p.mConsumers == if reciprocate then old(p.mConsumers) - {this} else old(p.mConsumers)
      decreases 2 * Half(this in p.mConsumers) + Half(p in mProviders)
    {
      erased := p in mProviders;
      mProviders := mProviders - {p};
      if reciprocate && this in p.mConsumers {
        var _ := p.DeregisterConsumer(this, true);
      }
    }

    method QueueFrame(frame: Frame) returns (result: bool)
      modifies this`mFrameQueue
      ensures result == (|old(mFrameQueue)| < MAX_QUEUE_SIZE)
      ensures mFrameQueue == if result then old(mFrameQueue) + [frame] else old(mFrameQueue)
    {
      if |mFrameQueue| >= MAX_QUEUE_SIZE {
        result := false;
      } else {
        result := true;
        mFrameQueue := mFrameQueue + [frame];
      }
    }

    /** Tells every provider, without being called back, and forgets them all. */
    method Cleanup()
      modifies this`mProviders, this`mFrameQueue, mProviders.Keys`mConsumers
      ensures mProviders == map[] && mFrameQueue == []
      ensures forall p :: p in old(mProviders) ==> p.mConsumers == old(p.mConsumers) - {this}
    {
      var todo := mProviders.Keys;
      while todo != {}
        invariant todo <= old(mProviders).Keys && mProviders == old(mProviders)
        invariant forall p :: p in old(mProviders) ==>
          p.mConsumers == if p in todo then old(p.mConsumers) else old(p.mConsumers) - {this}
        decreases |todo|
      {
        var p :| p in todo;
        if this in p.mConsumers {
          var _ := p.DeregisterConsumer(this, false);
        }
        todo := todo - {p};
      }
      mProviders := map[];
      mFrameQueue := [];
    }
  }

  class FeedProvider {
    var mCanPoll: bool
    var mState: ProviderState
    var mLastFrame: Option<Frame>
    var mConsumers: map<FeedConsumer, FeedLink>

    ghost function Polling(): Feed
      reads this
    {
      Feed(mState, mCanPoll, mLastFrame)
    }

    constructor ()
      ensures Polling() == FeedRun([]) && mConsumers == map[]
    {
      mCanPoll, mState, mLastFrame, mConsumers := true, PROV_WAIT, None, map[];
    }

    /** The consumer's side of a new edge gets the default link, whatever link is given here. */
    method RegisterConsumer(c: FeedConsumer, link: FeedLink) returns (inserted: bool)
      requires link.polled ==> mCanPoll
      requires this !in c.mProviders ==> |c.mProviders| < c.mProviderLimit
      modifies this`mConsumers, c`mProviders
      ensures inserted == (c !in old(mConsumers))
      ensures mConsumers == if inserted then old(mConsumers)[c := link] else old(mConsumers)
      ensures c.mProviders ==
        if this !in old(c.mProviders) then old(c.mProviders)[this := QUEUED_FEED_LINK] else old(c.mProviders)
      decreases Half(c !in mConsumers) + Half(this !in c.mProviders), 1
    {
      inserted := c !in mConsumers;
      if inserted {
        mConsumers := mConsumers[c := link];
      }
      if this !in c.mProviders {
        var _ := c.RegisterProvider(this, QUEUED_FEED_LINK);
      }
    }

    method DeregisterConsumer(c: FeedConsumer, reciprocate: bool) returns (erased: bool)
      modifies this`mConsumers, c`mProviders
      ensures erased == (c in old(mConsumers))
      ensures mConsumers == old(mConsumers) - {c}
      ensures c.mProviders == if reciprocate then old(c.mProviders) - {this} else old(c.mProviders)
      decreases 2 * Half(this in c.mProviders) + Half(c in mConsumers)
    {
      erased := c in mConsumers;
      mConsumers := mConsumers - {c};
      if reciprocate && this in c.mProviders {
        var _ := c.DeregisterProvider(this, true);
      }
    }

    method SetReady()
      modifies this`mState
      ensures mState == if old(mState) == PROV_WAIT then PROV_READY else old(mState)
      ensures Polling() == FeedStep(old(Polling()), Readying)
    {
      if mState == PROV_WAIT {
        mState := PROV_READY;
      }
    }

    method SetEnded()
      modifies this`mState
      ensures Polling() == FeedStep(old(Polling()), Ending)
    {
      if mState != PROV_ERROR {
        mState := PROV_ENDED;
      }
    }

    method SetError()
      modifies this`mState
      ensures Polling() == FeedStep(old(Polling()), Failing)
    {
      mState := PROV_ERROR;
    }

    method SetPolling(poll: bool)
      modifies this`mCanPoll
      ensures Polling() == FeedStep(old(Polling()), SettingPolling(poll))
    {
      mCanPoll := poll;
    }

    /** An error state stays; any other becomes ended. */
    method Cleanup()
      modifies this`mState, this`mConsumers, mConsumers.Keys`mProviders
      ensures Polling() == FeedStep(old(Polling()), Ending)
      ensures mConsumers == map[]
      ensures forall c :: c in old(mConsumers) ==> c.mProviders == old(c.mProviders) - {this}
    {
      SetEnded();
      var todo := mConsumers.Keys;
      while todo != {}
        invariant todo <= old(mConsumers).Keys && mConsumers == old(mConsumers)
        invariant Polling() == FeedStep(old(Polling()), Ending)
        invariant forall c :: c in old(mConsumers) ==>
          c.mProviders == if c in todo then old(c.mProviders) else old(c.mProviders) - {this}
        decreases |todo|
      {
        var c :| c in todo;
        if this in c.mProviders {
          var _ := c.DeregisterProvider(this, false);
        }
        todo := todo - {c};
      }
      mConsumers := map[];
    }

    /** The consumers that want the frame but whose queue is full. */
    ghost function Overrun(frame: Frame): set<FeedConsumer>
      reads this`mConsumers, mConsumers.Keys`mFrameQueue
    {
      set c | c in mConsumers && Wants(mConsumers[c], frame, c) && |c.mFrameQueue| >= MAX_QUEUE_SIZE
    }

    /** Offers the frame to every consumer; bad collects those that could not take it. */
    method Offer(frame: Frame) returns (bad: seq<FeedConsumer>)
      modifies mConsumers.Keys`mFrameQueue
      ensures forall c :: c in mConsumers ==>
        c.mFrameQueue == if Wants(mConsumers[c], frame, c) && |old(c.mFrameQueue)| < MAX_QUEUE_SIZE
                         then old(c.mFrameQueue) + [frame] else old(c.mFrameQueue)
      ensures forall c :: c in bad <==> c in old(Overrun(frame))
    {
      bad := [];
      var todo := mConsumers.Keys;
      while todo != {}
        invariant todo <= mConsumers.Keys
        invariant forall c :: c in mConsumers ==>
          c.mFrameQueue == if c !in todo && Wants(mConsumers[c], frame, c) && |old(c.mFrameQueue)| < MAX_QUEUE_SIZE
                           then old(c.mFrameQueue) + [frame] else old(c.mFrameQueue)
        invariant forall c :: c in bad <==> c in old(Overrun(frame)) && c !in todo
        decreases |todo|
      {
        var c :| c in todo;
        if mConsumers[c].queued {
          var accepted := Accepts(mConsumers[c], frame, c);
          if accepted {
            var taken := c.QueueFrame(frame);
            if !taken {
              bad := bad + [c];
            }
          }
        }
        todo := todo - {c};
      }
    }

    /** Drops the consumers that were overrun, from both sides. */
    method Evict(bad: seq<FeedConsumer>)
      modifies this`mConsumers, (set c | c in bad)`mProviders
      ensures mConsumers == old(mConsumers) - (set c | c in bad)
      ensures forall c :: c in bad ==> c.mProviders == old(c.mProviders) - {this}
    {
      var i := 0;
      while i < |bad|
        invariant 0 <= i <= |bad|
        invariant mConsumers == old(mConsumers) - (set c | c in bad[..i])
        invariant forall c :: c in bad ==>
          c.mProviders == if c in bad[..i] then old(c.mProviders) - {this} else old(c.mProviders)
      {
        assert bad[..i + 1] == bad[..i] + [bad[i]];
        var _ := DeregisterConsumer(bad[i], true);
        i := i + 1;
      }
      assert bad[..i] == bad;
    }

    method DistributeFrame(frame: Frame)
      modifies this, mConsumers.Keys`mFrameQueue, mConsumers.Keys`mProviders
      ensures Polling() == FeedStep(old(Polling()), Serving(frame))
      ensures mConsumers == old(mConsumers) - old(Overrun(frame))
      ensures forall c :: c in old(mConsumers) ==>
        c.mFrameQueue == if Wants(old(mConsumers)[c], frame, c) && c !in old(Overrun(frame))
                         then old(c.mFrameQueue) + [frame] else old(c.mFrameQueue)
      ensures forall c :: c in old(mConsumers) ==>
        c.mProviders == if c in old(Overrun(frame)) then old(c.mProviders) - {this} else old(c.mProviders)
    {
      SetReady();
      var badConsumers := Offer(frame);
      Evict(badConsumers);
      if mCanPoll {
        mLastFrame := Some(frame);
      }
    }

    method PollFrame() returns (frame: Option<Frame>)
      ensures frame == Polled(Polling())
    {
      if mState != PROV_READY || !mCanPoll {
        frame := None;
      } else {
        frame := mLastFrame;
      }
    }
  }

  // ---------- the whole graph, as a value ----------

  type Links = map<FeedProvider, map<FeedConsumer, FeedLink>>
  type BackLinks = map<FeedConsumer, map<FeedProvider, FeedLink>>

  /** Every provider's consumer map, every consumer's provider map, its queue and its provider limit. */
  datatype Net = Net(
    served: Links, fed: BackLinks, queues: map<FeedConsumer, seq<Frame>>, limits: map<FeedConsumer, nat>)
  {
    /** Both sides agree on every link. */
    ghost predicate Agree() {
      && (forall p, c :: p in served && c in served[p] ==> c in fed && p in fed[c])
      && (forall p, c :: c in fed && p in fed[c] ==> p in served && c in served[p])
    }

    /** Every link is to a member of the graph. */
    ghost predicate Closed() {
      && (forall p, c :: p in served && c in served[p] ==> c in fed)
      && (forall p, c :: c in fed && p in fed[c] ==> p in served)
    }

    /** No consumer is over its provider limit, and no queue is too long. */
    ghost predicate Bounded() {
      && fed.Keys == queues.Keys == limits.Keys
      && (forall c :: c in fed ==> |fed[c]| <= limits[c])
      && (forall c :: c in queues ==> |queues[c]| <= MAX_QUEUE_SIZE)
    }

    ghost predicate Valid() {
      Agree() && Bounded()
    }

    ghost predicate Linked(p: FeedProvider, c: FeedConsumer) {
      p in served && c in served[p]
    }

    ghost predicate Has(p: FeedProvider, c: FeedConsumer) {
      p in served && c in fed
    }

    /** A new edge, with the link kept by each side; an edge that is there stays as it is. */
    ghost function Connect(p: FeedProvider, c: FeedConsumer, link: FeedLink, back: FeedLink): Net
      requires Has(p, c)
    {
      this.(served := if c in served[p] then served else served[p := served[p][c := link]],
            fed := if p in fed[c] then fed else fed[c := fed[c][p := back]])
    }

    ghost function Cut(p: FeedProvider, c: FeedConsumer): Net
      requires Has(p, c)
    {
      this.(served := served[p := served[p] - {c}], fed := fed[c := fed[c] - {p}])
    }

    /** One side forgets the other, which is not told. */
    ghost function CutServed(p: FeedProvider, c: FeedConsumer): Net
      requires Has(p, c)
    {
      this.(served := served[p := served[p] - {c}])
    }

    ghost function CutFed(p: FeedProvider, c: FeedConsumer): Net
      requires Has(p, c)
    {
      this.(fed := fed[c := fed[c] - {p}])
    }

    ghost function DropConsumer(c: FeedConsumer): Net
      requires c in fed
    {
      this.(served := map p | p in served :: if p in fed[c] then served[p] - {c} else served[p],
            fed := fed[c := map[]], queues := queues[c := []])
    }

    ghost function DropProvider(p: FeedProvider): Net
      requires p in served
    {
      this.(served := served[p := map[]], fed := map c | c in fed :: if c in served[p] then fed[c] - {p} else fed[c])
    }

    ghost predicate Offered(p: FeedProvider, frame: Frame, c: FeedConsumer) {
      Linked(p, c) && c in queues && Wants(served[p][c], frame, c)
    }

    ghost predicate Overrun(p: FeedProvider, frame: Frame, c: FeedConsumer) {
      Offered(p, frame, c) && |queues[c]| >= MAX_QUEUE_SIZE
    }

    /** One frame of p: queued where wanted and there is room, the links cut where there is none. */
    ghost function Distribute(p: FeedProvider, frame: Frame): Net
      requires p in served
    {
      this.(
        served := served[p := map c | c in served[p] && !Overrun(p, frame, c) :: served[p][c]],
        fed := map c | c in fed :: if Overrun(p, frame, c) then fed[c] - {p} else fed[c],
        queues := map c | c in queues ::
          if Offered(p, frame, c) && !Overrun(p, frame, c) then queues[c] + [frame] else queues[c])
    }

    ghost function Drain(c: FeedConsumer): Net
      requires c in queues
    {
      this.(queues := queues[c := []])
    }
  }

  lemma FewerKeys<K, V>(m: map<K, V>, k: K)
    ensures |m - {k}| <= |m|
  {
    assert (m - {k}).Keys == m.Keys - {k};
    assert |(m - {k}).Keys| <= |m.Keys|;
  }

  lemma ConnectAgrees(n: Net, p: FeedProvider, c: FeedConsumer, link: FeedLink, back: FeedLink)
    requires n.Agree() && n.Has(p, c)
    ensures n.Connect(p, c, link, back).Agree()
  {
  }

  lemma CutAgrees(n: Net, p: FeedProvider, c: FeedConsumer)
    requires n.Agree() && n.Has(p, c)
    ensures n.Cut(p, c).Agree()
  {
  }

  lemma CutOneSideAgrees(n: Net, p: FeedProvider, c: FeedConsumer)
    requires n.Agree() && n.Has(p, c)
    ensures n.CutServed(p, c).Agree() <==> !n.Linked(p, c)
    ensures n.CutFed(p, c).Agree() <==> !n.Linked(p, c)
  {
    var a, b := n.CutServed(p, c), n.CutFed(p, c);
    if n.Linked(p, c) {
      assert c in a.fed && p in a.fed[c] && c !in a.served[p];
      assert p in b.served && c in b.served[p] && p !in b.fed[c];
    } else {
      assert n.served[p] - {c} == n.served[p] && n.fed[c] - {p} == n.fed[c];
      assert a.served == n.served && b.fed == n.fed;
    }
  }

  lemma DropConsumerAgrees(n: Net, c: FeedConsumer)
    requires n.Agree() && c in n.fed
    ensures n.DropConsumer(c).Agree()
  {
  }

  lemma DropProviderAgrees(n: Net, p: FeedProvider)
    requires n.Agree() && p in n.served
    ensures n.DropProvider(p).Agree()
  {
  }

  lemma DistributeAgrees(n: Net, p: FeedProvider, frame: Frame)
    requires n.Agree() && p in n.served
    ensures n.Distribute(p, frame).Agree()
  {
  }

  lemma ConnectBounded(n: Net, p: FeedProvider, c: FeedConsumer, link: FeedLink, back: FeedLink)
    requires n.Bounded() && n.Has(p, c)
    requires p !in n.fed[c] ==> |n.fed[c]| < n.limits[c]
    ensures n.Connect(p, c, link, back).Bounded()
  {
  }

  lemma CutBounded(n: Net, p: FeedProvider, c: FeedConsumer)
    requires n.Bounded() && n.Has(p, c)
    ensures n.Cut(p, c).Bounded()
  {
    FewerKeys(n.fed[c], p);
  }

  lemma DropConsumerBounded(n: Net, c: FeedConsumer)
    requires n.Bounded() && c in n.fed
    ensures n.DropConsumer(c).Bounded()
  {
  }

  lemma DropProviderBounded(n: Net, p: FeedProvider)
    requires n.Bounded() && p in n.served
    ensures n.DropProvider(p).Bounded()
  {
    forall c | c in n.fed ensures |n.fed[c] - {p}| <= n.limits[c] {
      FewerKeys(n.fed[c], p);
    }
  }

  lemma DistributeBounded(n: Net, p: FeedProvider, frame: Frame)
    requires n.Bounded() && p in n.served
    ensures n.Distribute(p, frame).Bounded()
  {
    forall c | c in n.fed ensures |n.fed[c] - {p}| <= n.limits[c] {
      FewerKeys(n.fed[c], p);
    }
  }

  // ---------- whole runs ----------

  /**
   * The public calls, and the consumer's own loop taking its queue. Deregistering tells the other side;
   * forgetting is the same call with reciprocate set to false.
   */
  datatype Call =
    | RegisteringConsumer(p: FeedProvider, c: FeedConsumer, link: FeedLink)
    | RegisteringProvider(p: FeedProvider, c: FeedConsumer, link: FeedLink)
    | Deregistering(p: FeedProvider, c: FeedConsumer)
    | ForgettingConsumer(p: FeedProvider, c: FeedConsumer)
    | ForgettingProvider(p: FeedProvider, c: FeedConsumer)
    | CleaningConsumer(c: FeedConsumer)
    | CleaningProvider(p: FeedProvider)
    | Distributing(p: FeedProvider, frame: Frame)
    | Draining(c: FeedConsumer)

  /** The call is about members of the graph and does not run into the provider limit, which is fatal. */
  ghost predicate Legal(n: Net, call: Call) {
    match call
    case RegisteringConsumer(p, c, _) => n.Has(p, c) && c in n.limits && (p !in n.fed[c] ==> |n.fed[c]| < n.limits[c])
    case RegisteringProvider(p, c, _) => n.Has(p, c) && c in n.limits && |n.fed[c]| < n.limits[c]
    case Deregistering(p, c) => n.Has(p, c)
    case ForgettingConsumer(p, c) => n.Has(p, c)
    case ForgettingProvider(p, c) => n.Has(p, c)
    case CleaningConsumer(c) => c in n.fed
    case CleaningProvider(p) => p in n.served
    case Distributing(p, _) => p in n.served
    case Draining(c) => c in n.queues
  }

  ghost function Apply(n: Net, call: Call): Net
    requires Legal(n, call)
  {
    match call
    case RegisteringConsumer(p, c, link) => n.Connect(p, c, link, QUEUED_FEED_LINK)
    case RegisteringProvider(p, c, link) => if p in n.fed[c] then n else n.Connect(p, c, link, link)
    case Deregistering(p, c) => n.Cut(p, c)
    case ForgettingConsumer(p, c) => n.CutServed(p, c)
    case ForgettingProvider(p, c) => n.CutFed(p, c)
    case CleaningConsumer(c) => n.DropConsumer(c)
    case CleaningProvider(p) => n.DropProvider(p)
    case Distributing(p, frame) => n.Distribute(p, frame)
    case Draining(c) => n.Drain(c)
  }

  /** The call forgets a link on one side only. */
  ghost predicate Breaks(n: Net, call: Call) {
    (call.ForgettingConsumer? || call.ForgettingProvider?) && n.Linked(call.p, call.c)
  }

  /** Exactly when a call keeps the sides in agreement: it does not forget a link that is there. */
  lemma ApplyAgrees(n: Net, call: Call)
    requires n.Agree() && Legal(n, call)
    ensures Apply(n, call).Agree() <==> !Breaks(n, call)
  {
    match call
    case RegisteringConsumer(p, c, link) => ConnectAgrees(n, p, c, link, QUEUED_FEED_LINK);
    case RegisteringProvider(p, c, link) => ConnectAgrees(n, p, c, link, link);
    case Deregistering(p, c) => CutAgrees(n, p, c);
    case ForgettingConsumer(p, c) => CutOneSideAgrees(n, p, c);
    case ForgettingProvider(p, c) => CutOneSideAgrees(n, p, c);
    case CleaningConsumer(c) => DropConsumerAgrees(n, c);
    case CleaningProvider(p) => DropProviderAgrees(n, p);
    case Distributing(p, frame) => DistributeAgrees(n, p, frame);
    case Draining(c) =>
  }

  /** Two objects registered with each other. */
  lemma LinkedPair(p: FeedProvider, c: FeedConsumer, link: FeedLink) returns (n: Net)
    ensures n.Valid() && n.Has(p, c) && n.Linked(p, c)
  {
    n := Net(map[p := map[c := link]], map[c := map[p := link]], map[c := []], map[c := 1]);
  }

  /** When one of them forgets the other they no longer agree. */
  lemma ForgettingBreaks(p: FeedProvider, c: FeedConsumer, link: FeedLink) returns (n: Net)
    ensures n.Valid() && n.Has(p, c)
    ensures !n.CutServed(p, c).Agree() && !n.CutFed(p, c).Agree()
  {
    n := LinkedPair(p, c, link);
    CutOneSideAgrees(n, p, c);
  }

  lemma ApplyBounded(n: Net, call: Call)
    requires n.Bounded() && Legal(n, call)
    ensures Apply(n, call).Bounded()
  {
    match call
    case RegisteringConsumer(p, c, link) => ConnectBounded(n, p, c, link, QUEUED_FEED_LINK);
    case RegisteringProvider(p, c, link) => ConnectBounded(n, p, c, link, link);
    case Deregistering(p, c) => CutBounded(n, p, c);
    case ForgettingConsumer(p, c) =>
    case ForgettingProvider(p, c) => FewerKeys(n.fed[c], p);
    case CleaningConsumer(c) => DropConsumerBounded(n, c);
    case CleaningProvider(p) => DropProviderBounded(n, p);
    case Distributing(p, frame) => DistributeBounded(n, p, frame);
    case Draining(c) =>
  }

  lemma ConnectLinks(n: Net, p: FeedProvider, c: FeedConsumer, link: FeedLink, back: FeedLink,
                     q: FeedProvider, d: FeedConsumer)
    requires n.Has(p, c)
    ensures n.Connect(p, c, link, back).Linked(q, d) <==> n.Linked(q, d) || (q == p && d == c)
  {
  }

  lemma CutLinks(n: Net, p: FeedProvider, c: FeedConsumer, q: FeedProvider, d: FeedConsumer)
    requires n.Has(p, c)
    ensures n.Cut(p, c).Linked(q, d) <==> n.Linked(q, d) && !(q == p && d == c)
  {
  }

  lemma DropConsumerLinks(n: Net, c: FeedConsumer, q: FeedProvider, d: FeedConsumer)
    requires n.Agree() && c in n.fed
    ensures n.DropConsumer(c).Linked(q, d) <==> n.Linked(q, d) && d != c
  {
  }

  lemma DistributeLinks(n: Net, p: FeedProvider, frame: Frame, q: FeedProvider, d: FeedConsumer)
    requires p in n.served
    ensures n.Distribute(p, frame).Linked(q, d) <==> n.Linked(q, d) && !(q == p && n.Overrun(p, frame, d))
  {
  }

  /** The links after a call: exactly the one registered is added, exactly the ones named are gone. */
  lemma ApplyLinks(n: Net, call: Call, q: FeedProvider, d: FeedConsumer)
    requires n.Agree() && Legal(n, call)
    ensures Apply(n, call).Linked(q, d) <==>
      match call
      case RegisteringConsumer(p, c, _) => n.Linked(q, d) || (q == p && d == c)
      case RegisteringProvider(p, c, _) => n.Linked(q, d) || (q == p && d == c)
      case Deregistering(p, c) => n.Linked(q, d) && !(q == p && d == c)
      case ForgettingConsumer(p, c) => n.Linked(q, d) && !(q == p && d == c)
      case ForgettingProvider(p, c) => n.Linked(q, d)
      case CleaningConsumer(c) => n.Linked(q, d) && d != c
      case CleaningProvider(p) => n.Linked(q, d) && q != p
      case Distributing(p, frame) => n.Linked(q, d) && !(q == p && n.Overrun(p, frame, d))
      case Draining(_) => n.Linked(q, d)
  {
    match call
    case RegisteringConsumer(p, c, link) => ConnectLinks(n, p, c, link, QUEUED_FEED_LINK, q, d);
    case RegisteringProvider(p, c, link) => ConnectLinks(n, p, c, link, link, q, d);
    case Deregistering(p, c) => CutLinks(n, p, c, q, d);
    case ForgettingConsumer(p, c) => CutLinks(n, p, c, q, d);
    case ForgettingProvider(p, c) =>
    case CleaningConsumer(c) => DropConsumerLinks(n, c, q, d);
    case CleaningProvider(p) =>
    case Distributing(p, frame) => DistributeLinks(n, p, frame, q, d);
    case Draining(c) =>
  }

  ghost predicate LegalRun(n: Net, calls: seq<Call>)
    decreases |calls|
  {
    calls == [] || (Legal(n, calls[0]) && LegalRun(Apply(n, calls[0]), calls[1..]))
  }

  ghost function Run(n: Net, calls: seq<Call>): Net
    requires LegalRun(n, calls)
    decreases |calls|
  {
    if calls == [] then n else Run(Apply(n, calls[0]), calls[1..])
  }

  /** Both sides agree at the start and after every call of the run. */
  ghost predicate AlwaysAgree(n: Net, calls: seq<Call>)
    requires LegalRun(n, calls)
    decreases |calls|
  {
    n.Agree() && (calls == [] || AlwaysAgree(Apply(n, calls[0]), calls[1..]))
  }

  /** No call of the run forgets a link that is there. */
  ghost predicate NeverBreaks(n: Net, calls: seq<Call>)
    requires LegalRun(n, calls)
    decreases |calls|
  {
    calls == [] || (!Breaks(n, calls[0]) && NeverBreaks(Apply(n, calls[0]), calls[1..]))
  }

  /** Exactly when both sides agree all through a run: no call of it forgets a link that is there. */
  lemma {:induction false} RunAgreesExactlyWhen(n: Net, calls: seq<Call>)
    requires n.Agree() && LegalRun(n, calls)
    ensures AlwaysAgree(n, calls) <==> NeverBreaks(n, calls)
    ensures NeverBreaks(n, calls) ==> Run(n, calls).Agree()
    decreases |calls|
  {
    if calls != [] {
      ApplyAgrees(n, calls[0]);
      if !Breaks(n, calls[0]) {
        RunAgreesExactlyWhen(Apply(n, calls[0]), calls[1..]);
      }
    }
  }

  /** In every run the provider and queue limits hold after every call, whatever is forgotten. */
  lemma {:induction false} RunKeepsBounds(n: Net, calls: seq<Call>)
    requires n.Bounded() && LegalRun(n, calls)
    ensures Run(n, calls).Bounded()
    decreases |calls|
  {
    if calls != [] {
      ApplyBounded(n, calls[0]);
      RunKeepsBounds(Apply(n, calls[0]), calls[1..]);
    }
  }

  /** And all links stay within the graph, which is all that the objects need to follow it. */
  lemma {:induction false} RunKeepsClosed(n: Net, calls: seq<Call>)
    requires n.Closed() && LegalRun(n, calls)
    ensures Run(n, calls).Closed()
    decreases |calls|
  {
    if calls != [] {
      ApplyCloses(n, calls[0]);
      RunKeepsClosed(Apply(n, calls[0]), calls[1..]);
    }
  }

  lemma ApplyCloses(n: Net, call: Call)
    requires n.Closed() && Legal(n, call)
    ensures Apply(n, call).Closed()
  {
  }

  /** The frame a call puts on c's queue, if any. */
  ghost function Arrival(n: Net, call: Call, c: FeedConsumer): seq<Frame> {
    if call.Distributing? && n.Offered(call.p, call.frame, c) && !n.Overrun(call.p, call.frame, c) then [call.frame]
    else []
  }

  ghost function Arrivals(n: Net, calls: seq<Call>, c: FeedConsumer): seq<Frame>
    requires LegalRun(n, calls)
    decreases |calls|
  {
    if calls == [] then [] else Arrival(n, calls[0], c) + Arrivals(Apply(n, calls[0]), calls[1..], c)
  }

  lemma ApplyQueues(n: Net, call: Call, c: FeedConsumer)
    requires Legal(n, call) && c in n.queues && call != Draining(c) && call != CleaningConsumer(c)
    ensures c in Apply(n, call).queues
    ensures Apply(n, call).queues[c] == n.queues[c] + Arrival(n, call, c)
  {
    assert n.queues[c] + [] == n.queues[c];
  }

  /** While c neither drains its queue nor is cleaned up, the queue gains exactly the run's arrivals, in order. */
  lemma {:induction false} QueueHoldsArrivals(n: Net, calls: seq<Call>, c: FeedConsumer)
    requires LegalRun(n, calls) && c in n.queues
    requires forall i :: 0 <= i < |calls| ==> calls[i] != Draining(c) && calls[i] != CleaningConsumer(c)
    ensures c in Run(n, calls).queues
    ensures Run(n, calls).queues[c] == n.queues[c] + Arrivals(n, calls, c)
    decreases |calls|
  {
    if calls == [] {
      assert n.queues[c] + [] == n.queues[c];
    } else {
      ApplyQueues(n, calls[0], c);
      QueueHoldsArrivals(Apply(n, calls[0]), calls[1..], c);
    }
  }

  // ---------- the objects follow the value ----------

  /** The objects stand as the value says. */
  ghost predicate Shows(n: Net)
    reads n.served.Keys`mConsumers, n.fed.Keys`mProviders, n.fed.Keys`mFrameQueue
  {
    && n.fed.Keys == n.queues.Keys == n.limits.Keys
    && (forall p :: p in n.served ==> p.mConsumers == n.served[p])
    && (forall c :: c in n.fed ==> c.mProviders == n.fed[c])
    && (forall c :: c in n.fed ==> c.mFrameQueue == n.queues[c])
    && (forall c :: c in n.fed ==> c.mProviderLimit == n.limits[c])
  }

  lemma FreshGraphShows(providers: set<FeedProvider>, consumers: set<FeedConsumer>) returns (n: Net)
    requires forall p :: p in providers ==> p.mConsumers == map[]
    requires forall c :: c in consumers ==> c.mProviders == map[] && c.mFrameQueue == []
    ensures Shows(n) && n.Valid() && n.served.Keys == providers && n.fed.Keys == consumers
  {
    n := Net(map p | p in providers :: map[], map c | c in consumers :: map[],
             map c | c in consumers :: [], map c | c in consumers :: c.mProviderLimit);
  }

  method RegisterConsumer(p: FeedProvider, c: FeedConsumer, link: FeedLink, ghost n: Net) returns (inserted: bool)
    requires Shows(n) && Legal(n, RegisteringConsumer(p, c, link))
    requires link.polled ==> p.mCanPoll
    modifies p`mConsumers, c`mProviders
    ensures Shows(n.Connect(p, c, link, QUEUED_FEED_LINK))
    ensures inserted <==> !n.Linked(p, c)
  {
    inserted := p.RegisterConsumer(c, link);
  }

  method RegisterProvider(p: FeedProvider, c: FeedConsumer, link: FeedLink, ghost n: Net) returns (inserted: bool)
    requires Shows(n) && Legal(n, RegisteringProvider(p, c, link))
    requires p !in c.mProviders && c !in p.mConsumers && link.polled ==> p.mCanPoll
    modifies p`mConsumers, c`mProviders
    ensures Shows(Apply(n, RegisteringProvider(p, c, link)))
    ensures inserted <==> p !in n.fed[c]
  {
    inserted := c.RegisterProvider(p, link);
  }

  method DeregisterConsumer(p: FeedProvider, c: FeedConsumer, ghost n: Net) returns (erased: bool)
    requires Shows(n) && Legal(n, Deregistering(p, c))
    modifies p`mConsumers, c`mProviders
    ensures Shows(n.Cut(p, c))
    ensures erased <==> n.Linked(p, c)
  {
    erased := p.DeregisterConsumer(c, true);
  }

  method DeregisterProvider(p: FeedProvider, c: FeedConsumer, ghost n: Net) returns (erased: bool)
    requires Shows(n) && Legal(n, Deregistering(p, c))
    modifies p`mConsumers, c`mProviders
    ensures Shows(n.Cut(p, c))
    ensures erased <==> p in n.fed[c]
  {
    erased := c.DeregisterProvider(p, true);
  }

  method ForgetConsumer(p: FeedProvider, c: FeedConsumer, ghost n: Net) returns (erased: bool)
    requires Shows(n) && Legal(n, ForgettingConsumer(p, c))
    modifies p`mConsumers, c`mProviders
    ensures Shows(n.CutServed(p, c))
    ensures erased <==> n.Linked(p, c)
  {
    erased := p.DeregisterConsumer(c, false);
  }

  method ForgetProvider(p: FeedProvider, c: FeedConsumer, ghost n: Net) returns (erased: bool)
    requires Shows(n) && Legal(n, ForgettingProvider(p, c))
    modifies p`mConsumers, c`mProviders
    ensures Shows(n.CutFed(p, c))
    ensures erased <==> p in n.fed[c]
  {
    erased := c.DeregisterProvider(p, false);
  }

  method CleanupConsumer(c: FeedConsumer, ghost n: Net)
    requires Shows(n) && Legal(n, CleaningConsumer(c))
    modifies c`mProviders, c`mFrameQueue, c.mProviders.Keys`mConsumers
    ensures Shows(n.DropConsumer(c))
  {
    c.Cleanup();
  }

  method CleanupProvider(p: FeedProvider, ghost n: Net)
    requires Shows(n) && Legal(n, CleaningProvider(p))
    modifies p`mState, p`mConsumers, p.mConsumers.Keys`mProviders
    ensures Shows(n.DropProvider(p))
  {
    p.Cleanup();
  }

  lemma DistributeShows(n: Net, p: FeedProvider, frame: Frame, over: set<FeedConsumer>)
    requires p in n.served && n.fed.Keys == n.queues.Keys == n.limits.Keys
    requires forall c :: c in n.served[p] ==> (c in over <==> n.Overrun(p, frame, c))
    requires p.mConsumers == n.served[p] - over
    requires forall q :: q in n.served && q != p ==> q.mConsumers == n.served[q]
    requires forall c :: c in n.fed ==> c.mProviderLimit == n.limits[c]
    requires forall c :: c in n.fed ==>
      c.mFrameQueue == if n.Offered(p, frame, c) && !n.Overrun(p, frame, c) then n.queues[c] + [frame] else n.queues[c]
    requires forall c :: c in n.fed ==> c.mProviders == if n.Overrun(p, frame, c) then n.fed[c] - {p} else n.fed[c]
    ensures Shows(n.Distribute(p, frame))
  {
  }

  lemma OverrunShows(n: Net, p: FeedProvider, frame: Frame)
    requires Shows(n) && n.Closed() && p in n.served
    ensures forall c :: c in n.served[p] ==> c in n.fed && (c in p.Overrun(frame) <==> n.Overrun(p, frame, c))
  {
  }

  method DistributeFrame(p: FeedProvider, frame: Frame, ghost n: Net)
    requires Shows(n) && n.Closed() && Legal(n, Distributing(p, frame))
    modifies p, p.mConsumers.Keys`mFrameQueue, p.mConsumers.Keys`mProviders
    ensures Shows(n.Distribute(p, frame))
  {
    ghost var over := p.Overrun(frame);
    OverrunShows(n, p, frame);
    p.DistributeFrame(frame);
    DistributeShows(n, p, frame, over);
  }
}
