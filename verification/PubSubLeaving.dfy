/** When the asynchronous Redis client leaves subscribed context: the two ways in which it never
    does again, and the exact condition on a run for it to have left when all is quiet. */
module PubSubLeaving {
  import opened PubSub

  /** The server has no subscription left and nothing to answer. */
  predicate Quiet(s: State) {
    s.wire == [] && s.active == {}
  }

  // ---------------------------------------------------------------- what never goes away

  /** More confirmations are expected for a topic than are to come. */
  predicate Excess(s: State, t: Topic) {
    t in s.subs && s.subs[t].pendingSubs > Subs(s.wire, t)
  }

  /** More replies are to be ignored than will be. */
  predicate Surplus(s: State) {
    s.pendingUnsubs > CountedUnsubs(s.wire)
  }

  lemma {:induction false} ExcessSubscribe(s: State, pattern: bool, names: seq<string>, id: nat, carried: int, t: Topic)
    requires Excess(s, t)
    ensures Excess(SubscribeAll(s, pattern, names, id, carried), t)
    decreases |names|
  {
    if names == [] {
    } else {
      var x := Topic(pattern, names[0]);
      var count := Count(s, x, carried);
      Snoc(s.wire, Subscribed(x), t);
      ExcessSubscribe(SubscribeOne(s, x, id, count), pattern, names[1..], id, count, t);
    }
  }

  lemma {:induction false} ExcessUnsubscribe(s: State, pattern: bool, names: seq<string>, t: Topic)
    requires Excess(s, t)
    ensures Excess(UnsubscribeAll(s, pattern, names), t)
    decreases |names|
  {
    if names == [] {
    } else {
      var d := UnsubscribeOne(s, Topic(pattern, names[0]));
      Snoc(s.wire, d.wire[|s.wire|], t);
      ExcessUnsubscribe(d, pattern, names[1..], t);
    }
  }

  lemma ExcessDeliver(s: State, t: Topic)
    requires Inv(s) && Excess(s, t) && s.wire != []
    ensures Excess(Deliver(s).0, t)
  {
    Head(s.wire, t);
    if !s.wire[0].Answer? {
      FrontIsClear(s);
    }
  }

  lemma ExcessStep(s: State, e: Event, t: Topic)
    requires Inv(s) && Excess(s, t)
    ensures Excess(Apply(s, e), t)
  {
    match e {
      case Subscribe(pattern, names, id) => ExcessSubscribe(s, pattern, names, id, 1, t);
      case Unsubscribe(pattern, names) => ExcessUnsubscribe(s, pattern, names, t);
      case Other(id) => Snoc(s.wire, Answer(id), t);
      case Receive =>
        if s.wire != [] {
          ExcessDeliver(s, t);
        }
    }
  }

  lemma {:induction false} SurplusSubscribe(s: State, pattern: bool, names: seq<string>, id: nat, carried: int)
    requires Surplus(s)
    ensures Surplus(SubscribeAll(s, pattern, names, id, carried))
    decreases |names|
  {
    if names == [] {
    } else {
      var x := Topic(pattern, names[0]);
      var count := Count(s, x, carried);
      Snoc(s.wire, Subscribed(x), x);
      SurplusSubscribe(SubscribeOne(s, x, id, count), pattern, names[1..], id, count);
    }
  }

  lemma {:induction false} SurplusUnsubscribe(s: State, pattern: bool, names: seq<string>)
    requires Surplus(s)
    ensures Surplus(UnsubscribeAll(s, pattern, names))
    decreases |names|
  {
    if names == [] {
    } else {
      var x := Topic(pattern, names[0]);
      var d := UnsubscribeOne(s, x);
      Snoc(s.wire, d.wire[|s.wire|], x);
      SurplusUnsubscribe(d, pattern, names[1..]);
    }
  }

  /** An answer for a topic that is not in the dictionary was counted. */
  lemma SurplusDeliver(s: State)
    requires Inv(s) && Surplus(s) && s.wire != []
    ensures Surplus(Deliver(s).0)
  {
    Head(s.wire, Topic(false, ""));
    match s.wire[0] {
      case Subscribed(t) =>
        FrontIsClear(s);
        SubscribedOk(s);
      case Unsubscribed(t, counted) =>
        FrontIsClear(s);
        DeliverUnsubscribed(s, EndTopic(Serve(s), t));
        assert !counted ==> t in s.subs;
      case Answer(_) =>
    }
  }

  lemma SurplusStep(s: State, e: Event)
    requires Inv(s) && Surplus(s)
    ensures Surplus(Apply(s, e))
  {
    match e {
      case Subscribe(pattern, names, id) => SurplusSubscribe(s, pattern, names, id, 1);
      case Unsubscribe(pattern, names) => SurplusUnsubscribe(s, pattern, names);
      case Other(id) => Snoc(s.wire, Answer(id), Topic(false, ""));
      case Receive =>
        if s.wire != [] {
          SurplusDeliver(s);
        }
    }
  }

  // ---------------------------------------------------------------- the context and its contents

  /** Out of subscribed context there is no topic and nothing to ignore; in it there is
      something left, on the wire, at the server or in the counts. */
  ghost predicate Context(s: State) {
    && (!s.subscribed ==> s.subs == map[] && s.pendingUnsubs == 0)
    && (s.subscribed ==> s.subs != map[] || s.pendingUnsubs != 0 || s.active != {} || exists j :: 0 <= j < |s.wire| && !s.wire[j].Answer?)
  }

  lemma {:induction false} SubscribeAllIn(s: State, pattern: bool, names: seq<string>, id: nat, carried: int)
    requires s.subs != map[] && s.subscribed
    ensures var d := SubscribeAll(s, pattern, names, id, carried); d.subscribed && d.subs != map[]
    decreases |names|
  {
    if names == [] {
    } else {
      var x := Topic(pattern, names[0]);
      var count := Count(s, x, carried);
      assert x in SubscribeOne(s, x, id, count).subs;
      SubscribeAllIn(SubscribeOne(s, x, id, count), pattern, names[1..], id, count);
    }
  }

  lemma {:induction false} UnsubscribeAllIn(s: State, pattern: bool, names: seq<string>)
    requires s.subscribed && Context(s)
    ensures UnsubscribeAll(s, pattern, names).subscribed && Context(UnsubscribeAll(s, pattern, names))
    decreases |names|
  {
    if names == [] {
    } else {
      var d := UnsubscribeOne(s, Topic(pattern, names[0]));
      assert !d.wire[|s.wire|].Answer?;
      UnsubscribeAllIn(d, pattern, names[1..]);
    }
  }

  lemma DeliverContext(s: State)
    requires Inv(s) && Context(s) && s.wire != []
    ensures Context(Deliver(s).0)
  {
    var d := Deliver(s).0;
    match s.wire[0] {
      case Subscribed(t) =>
        SubscribedOk(s);
        FrontIsClear(s);
        assert t in d.subs;
      case Unsubscribed(t, _) =>
        FrontIsClear(s);
        DeliverUnsubscribed(s, EndTopic(Serve(s), t));
      case Answer(_) =>
        if j :| 0 <= j < |s.wire| && !s.wire[j].Answer? {
          assert d.wire[j - 1] == s.wire[j];
        }
    }
  }

  lemma ContextStep(s: State, e: Event)
    requires Inv(s) && Context(s)
    ensures Context(Apply(s, e))
  {
    match e {
      case Subscribe(pattern, names, id) =>
        if names != [] {
          var t := Topic(pattern, names[0]);
          var count := Count(s, t, 1);
          assert t in SubscribeOne(s, t, id, count).subs;
          SubscribeAllIn(SubscribeOne(s, t, id, count), pattern, names[1..], id, count);
        }
      case Unsubscribe(pattern, names) =>
        if s.subscribed {
          UnsubscribeAllIn(s, pattern, names);
        }
      case Other(id) =>
        if j :| 0 <= j < |s.wire| && !s.wire[j].Answer? {
          assert Apply(s, e).wire[j] == s.wire[j];
        }
      case Receive =>
        if s.wire != [] {
          DeliverContext(s);
        }
    }
  }

  lemma {:induction false} RunContext(es: seq<Event>)
    ensures Context(Run(es))
  {
    if es == [] {
    } else {
      RunContext(es[..|es| - 1]);
      RunOk(es[..|es| - 1]);
      ContextStep(Run(es[..|es| - 1]), es[|es| - 1]);
    }
  }

  /** When all is quiet the flag is set exactly if the dictionary or the count is not empty. */
  lemma QuietSubscribed(es: seq<Event>)
    requires Quiet(Run(es))
    ensures Run(es).subscribed <==> Run(es).subs != map[] || Run(es).pendingUnsubs != 0
  {
    RunContext(es);
  }

  // ---------------------------------------------------------------- permanence

  /** Once a count is too high the client never leaves subscribed context again. */
  lemma {:induction false} NeverLeaves(es: seq<Event>, fs: seq<Event>)
    requires Surplus(Run(es)) || exists t :: Excess(Run(es), t)
    ensures Run(es + fs).subscribed
    ensures Surplus(Run(es + fs)) || exists t :: Excess(Run(es + fs), t)
    decreases |fs|
  {
    if fs == [] {
      assert es + fs == es;
      RunContext(es);
    } else {
      var init, e := fs[..|fs| - 1], fs[|fs| - 1];
      NeverLeaves(es, init);
      RunOk(es + init);
      assert es + fs == es + init + [e];
      RunNext(es + init, e);
      var s := Run(es + init);
      if Surplus(s) {
        SurplusStep(s, e);
      } else {
        var t :| Excess(s, t);
        ExcessStep(s, e, t);
      }
      RunContext(es + fs);
    }
  }

  // ---------------------------------------------------------------- runs that leave

  /** No topic of the command has a counted unsubscription on the wire. */
  ghost predicate Apart(s: State, pattern: bool, names: seq<string>) {
    forall j :: 0 <= j < |s.wire| && s.wire[j].Unsubscribed? && s.wire[j].counted && s.wire[j].t.pattern == pattern ==>
                  s.wire[j].t.name !in names
  }

  /** Every SUBSCRIBE is plain, and apart from unsubscriptions whose reply is to be ignored. */
  ghost predicate OrderlyRun(es: seq<Event>) {
    es == [] ||
    var init, e := es[..|es| - 1], es[|es| - 1];
    && OrderlyRun(init)
    && (e.Subscribe? ==> Plain(Run(init), e.pattern, e.names) && Apart(Run(init), e.pattern, e.names))
  }

  /** There is an uncounted unsubscription of the topic with no subscription behind it. */
  predicate Ending(q: seq<Reply>, t: Topic) {
    q != [] && q[|q| - 1] != Subscribed(t) && (q[|q| - 1] == Unsubscribed(t, false) || Ending(q[..|q| - 1], t))
  }

  /** The topic of every counted unsubscription is gone when it comes: no subscription is
      behind it, and if the topic is still there its end is in front. */
  ghost predicate Timely(s: State) {
    && (forall j, k :: 0 <= j < k < |s.wire| && s.wire[j].Unsubscribed? && s.wire[j].counted ==> s.wire[k] != Subscribed(s.wire[j].t))
    && (forall j :: 0 <= j < |s.wire| && s.wire[j].Unsubscribed? && s.wire[j].counted && s.wire[j].t in s.subs ==>
                      Ending(s.wire[..j], s.wire[j].t))
    && (forall t :: t in s.subs && s.subs[t].unsubscribeSent ==> Ending(s.wire, t))
  }

  /** All counts are exact, and what is in the dictionary is or will be subscribed. */
  ghost predicate Orderly(s: State) {
    && Exact(s) && Timely(s)
    && s.pendingUnsubs == CountedUnsubs(s.wire)
    && (forall t :: t in s.subs ==> t in s.active || Subs(s.wire, t) > 0)
  }

  lemma EndingSnoc(q: seq<Reply>, r: Reply, t: Topic)
    ensures Ending(q + [r], t) <==> r != Subscribed(t) && (r == Unsubscribed(t, false) || Ending(q, t))
  {
    assert (q + [r])[..|q|] == q;
  }

  /** The front goes: either the end of the topic is still there, or it was this one and
      nothing is behind it. */
  lemma {:induction false} EndingRest(q: seq<Reply>, t: Topic)
    requires Ending(q, t)
    ensures Ending(q[1..], t) || (q[0] == Unsubscribed(t, false) && Subs(q, t) == 0)
  {
    if |q| == 1 {
      assert q[..0] == [];
    } else {
      var init := q[..|q| - 1];
      assert q[1..][..|q| - 2] == init[1..];
      if q[|q| - 1] != Unsubscribed(t, false) {
        EndingRest(init, t);
      }
    }
  }

  lemma {:induction false} NoneBehind(q: seq<Reply>, j: nat, t: Topic)
    requires j <= |q| && forall k :: j <= k < |q| ==> q[k] != Subscribed(t)
    ensures Subs(q, t) == Subs(q[..j], t)
  {
    if j == |q| {
      assert q[..j] == q;
    } else {
      NoneBehind(q[..|q| - 1], j, t);
      assert q[..|q| - 1][..j] == q[..j];
    }
  }

  /** All of `Orderly` but the counts of confirmations. */
  ghost predicate Ordered(s: State) {
    && Timely(s)
    && s.pendingUnsubs == CountedUnsubs(s.wire)
    && (forall t :: t in s.subs ==> t in s.active || Subs(s.wire, t) > 0)
  }

  /** A reply that is not a subscription comes behind. */
  lemma TimelySnoc(s: State, r: Reply, d: State)
    requires Timely(s) && !r.Subscribed? && d.wire == s.wire + [r] && d.subs.Keys == s.subs.Keys
    requires forall t :: t in d.subs && d.subs[t].unsubscribeSent ==> s.subs[t].unsubscribeSent || r == Unsubscribed(t, false)
    requires r.Unsubscribed? && r.counted && r.t in d.subs ==> Ending(s.wire, r.t)
    ensures Timely(d)
  {
    forall j | 0 <= j < |d.wire| && d.wire[j].Unsubscribed? && d.wire[j].counted && d.wire[j].t in d.subs
      ensures Ending(d.wire[..j], d.wire[j].t)
    {
      assert d.wire[..j] == s.wire[..j];
      assert s.wire[..|s.wire|] == s.wire;
    }
    forall t | t in d.subs && d.subs[t].unsubscribeSent
      ensures Ending(d.wire, t)
    {
      EndingSnoc(s.wire, r, t);
    }
  }

  /** A subscription comes behind, apart from counted unsubscriptions. */
  lemma TimelySubscribe(s: State, t: Topic, id: nat, count: int)
    requires Timely(s)
    requires forall j :: 0 <= j < |s.wire| && s.wire[j].Unsubscribed? && s.wire[j].counted ==> s.wire[j].t != t
    ensures Timely(SubscribeOne(s, t, id, count))
  {
    var d := SubscribeOne(s, t, id, count);
    forall j | 0 <= j < |d.wire| && d.wire[j].Unsubscribed? && d.wire[j].counted && d.wire[j].t in d.subs
      ensures Ending(d.wire[..j], d.wire[j].t)
    {
      assert d.wire[..j] == s.wire[..j];
    }
    forall x | x in d.subs && d.subs[x].unsubscribeSent
      ensures Ending(d.wire, x)
    {
      EndingSnoc(s.wire, Subscribed(t), x);
    }
  }

  lemma {:induction false} OrderedSubscribe(s: State, pattern: bool, names: seq<string>, id: nat, carried: int)
    requires Ordered(s) && Apart(s, pattern, names)
    ensures Ordered(SubscribeAll(s, pattern, names, id, carried))
    decreases |names|
  {
    if names == [] {
    } else {
      var t := Topic(pattern, names[0]);
      var count := Count(s, t, carried);
      var d := SubscribeOne(s, t, id, count);
      TimelySubscribe(s, t, id, count);
      SnocAll(s.wire, Subscribed(t));
      assert Apart(d, pattern, names[1..]);
      OrderedSubscribe(d, pattern, names[1..], id, count);
    }
  }

  lemma OrderedUnsubscribeOne(s: State, t: Topic)
    requires Ordered(s)
    ensures Ordered(UnsubscribeOne(s, t))
  {
    var d := UnsubscribeOne(s, t);
    var r := d.wire[|s.wire|];
    SnocAll(s.wire, r);
    TimelySnoc(s, r, d);
  }

  lemma {:induction false} OrderedUnsubscribe(s: State, pattern: bool, names: seq<string>)
    requires Ordered(s)
    ensures Ordered(UnsubscribeAll(s, pattern, names))
    decreases |names|
  {
    if names == [] {
    } else {
      OrderedUnsubscribeOne(s, Topic(pattern, names[0]));
      OrderedUnsubscribe(UnsubscribeOne(s, Topic(pattern, names[0])), pattern, names[1..]);
    }
  }

  lemma OrderedOther(s: State, id: nat)
    requires Ordered(s)
    ensures Ordered(OtherCommand(s, id))
  {
    SnocAll(s.wire, Answer(id));
    TimelySnoc(s, Answer(id), OtherCommand(s, id));
  }

  lemma RestPrefix(q: seq<Reply>, j: nat)
    requires j < |q|
    ensures q[..j + 1][1..] == q[1..][..j]
  {
    forall i | 0 <= i < j
      ensures q[..j + 1][1..][i] == q[1..][..j][i]
    {
    }
  }

  /** The front goes, and with it every topic that it was the end of. */
  lemma TimelyRest(s: State, d: State)
    requires Timely(s) && s.wire != [] && d.wire == s.wire[1..] && d.subs.Keys <= s.subs.Keys
    requires forall x :: x in d.subs ==> d.subs[x].unsubscribeSent == s.subs[x].unsubscribeSent
    requires forall x :: x in d.subs ==> s.wire[0] != Unsubscribed(x, false) || Subs(s.wire, x) != 0
    ensures Timely(d)
  {
    forall j | 0 <= j < |d.wire| && d.wire[j].Unsubscribed? && d.wire[j].counted && d.wire[j].t in d.subs
      ensures Ending(d.wire[..j], d.wire[j].t)
    {
      var t := d.wire[j].t;
      assert d.wire[j] == s.wire[j + 1];
      EndingRest(s.wire[..j + 1], t);
      RestPrefix(s.wire, j);
      NoneBehind(s.wire, j + 1, t);
    }
    forall t | t in d.subs && d.subs[t].unsubscribeSent
      ensures Ending(d.wire, t)
    {
      EndingRest(s.wire, t);
    }
  }

  /** A counted unsubscription finds its topic gone. */
  lemma CountedFindsNothing(s: State)
    requires Timely(s) && s.wire != [] && s.wire[0].Unsubscribed? && s.wire[0].counted
    ensures s.wire[0].t !in s.subs
  {
    assert s.wire[..0] == [];
  }

  lemma OrderlyEndTopic(s: State, t: Topic, d: State)
    requires Inv(s) && Orderly(s) && s.wire != [] && IsUnsub(s.wire[0], t) && d == EndTopic(Serve(s), t)
    ensures Ordered(d)
  {
    HeadAll(s.wire);
    if s.wire[0].counted {
      CountedFindsNothing(s);
    } else {
      assert s.wire[0].t in s.subs;
    }
    TimelyRest(s, d);
  }

  lemma OrderlyDeliver(s: State)
    requires Inv(s) && Orderly(s) && s.wire != []
    ensures Ordered(Deliver(s).0)
  {
    match s.wire[0] {
      case Subscribed(t) =>
        FrontIsClear(s);
        SubscribedOk(s);
        OrderlySubscribed(s, t);
      case Unsubscribed(t, _) =>
        var d := EndTopic(Serve(s), t);
        FrontIsClear(s);
        OrderlyEndTopic(s, t, d);
        DeliverUnsubscribed(s, d);
      case Answer(_) =>
        DeliverWire(s);
        OrderlyAnswer(s, Deliver(s).0);
    }
  }

  lemma OrderlySubscribed(s: State, t: Topic)
    requires Orderly(s) && s.wire != [] && s.wire[0] == Subscribed(t) && t in s.subs
    ensures Ordered(GetSubscribeCallback(Serve(s), s.wire[0], |Serve(s).active|).0)
  {
    HeadAll(s.wire);
    TimelyRest(s, GetSubscribeCallback(Serve(s), s.wire[0], |Serve(s).active|).0);
  }

  lemma OrderlyAnswer(s: State, d: State)
    requires Orderly(s) && s.wire != [] && s.wire[0].Answer? && d.wire == s.wire[1..]
    requires d.subs == s.subs && d.active == s.active && d.pendingUnsubs == s.pendingUnsubs
    ensures Ordered(d)
  {
    HeadAll(s.wire);
    TimelyRest(s, d);
  }

  lemma {:induction false} OrderlyRunOk(es: seq<Event>)
    requires OrderlyRun(es)
    ensures Orderly(Run(es)) && PlainRun(es)
  {
    if es == [] {
    } else {
      var init, e := es[..|es| - 1], es[|es| - 1];
      var s := Run(init);
      OrderlyRunOk(init);
      RunOk(init);
      ExactRun(es);
      match e {
        case Subscribe(pattern, names, id) => OrderedSubscribe(s, pattern, names, id, 1);
        case Unsubscribe(pattern, names) => OrderedUnsubscribe(s, pattern, names);
        case Other(id) => OrderedOther(s, id);
        case Receive =>
          if s.wire != [] {
            OrderlyDeliver(s);
          }
      }
    }
  }

  // ---------------------------------------------------------------- runs that do not

  /** A subscription is behind a counted unsubscription of its topic. */
  ghost predicate Clash(s: State) {
    exists j, k :: 0 <= j < k < |s.wire| && s.wire[j].Unsubscribed? && s.wire[j].counted && s.wire[k] == Subscribed(s.wire[j].t)
  }

  /** Something is too high, or will be when it comes. */
  ghost predicate Doomed(s: State) {
    Surplus(s) || Clash(s) || exists t :: Excess(s, t)
  }

  lemma ClashAppend(s: State, d: State)
    requires Clash(s) && s.wire <= d.wire
    ensures Clash(d)
  {
    var j, k :| 0 <= j < k < |s.wire| && s.wire[j].Unsubscribed? && s.wire[j].counted && s.wire[k] == Subscribed(s.wire[j].t);
    assert d.wire[j] == s.wire[j] && d.wire[k] == s.wire[k];
  }

  lemma {:induction false} HasSub(q: seq<Reply>, k: nat, t: Topic)
    requires k < |q| && q[k] == Subscribed(t)
    ensures Subs(q, t) > 0
  {
    if |q| - 1 <= k {
    } else {
      HasSub(q[..|q| - 1], k, t);
    }
  }

  /** The counted unsubscription comes while its topic is expected again: it is not taken back. */
  lemma ClashComes(s: State, k: nat)
    requires Inv(s) && 0 < k < |s.wire| && s.wire[0].Unsubscribed? && s.wire[0].counted && s.wire[k] == Subscribed(s.wire[0].t)
    ensures Surplus(Deliver(s).0)
  {
    var t := s.wire[0].t;
    HasSub(s.wire, k, t);
    Head(s.wire, t);
    FrontIsClear(s);
    assert EndTopic(Serve(s), t) == Serve(s);
    DeliverUnsubscribed(s, Serve(s));
  }

  lemma DeliverWire(s: State)
    requires Inv(s) && s.wire != []
    ensures Deliver(s).0.wire == s.wire[1..]
  {
  }

  lemma ClashDeliver(s: State)
    requires Inv(s) && Clash(s) && s.wire != []
    ensures Clash(Deliver(s).0) || Surplus(Deliver(s).0)
  {
    var j, k :| 0 <= j < k < |s.wire| && s.wire[j].Unsubscribed? && s.wire[j].counted && s.wire[k] == Subscribed(s.wire[j].t);
    DeliverWire(s);
    if j > 0 {
      var q := Deliver(s).0.wire;
      assert q[j - 1] == s.wire[j] && q[k - 1] == s.wire[k];
    } else {
      ClashComes(s, k);
    }
  }

  lemma {:induction false} SubscribeWire(s: State, pattern: bool, names: seq<string>, id: nat, carried: int)
    ensures var d := SubscribeAll(s, pattern, names, id, carried);
            s.wire <= d.wire && forall n :: n in names ==> Subscribed(Topic(pattern, n)) in d.wire[|s.wire|..]
    decreases |names|
  {
    if names == [] {
    } else {
      var t := Topic(pattern, names[0]);
      var count := Count(s, t, carried);
      var d := SubscribeOne(s, t, id, count);
      var r := SubscribeAll(d, pattern, names[1..], id, count);
      SubscribeWire(d, pattern, names[1..], id, count);
      assert r.wire[|s.wire|] == d.wire[|s.wire|] == Subscribed(t);
      assert r.wire[|s.wire|..][1..] == r.wire[|d.wire|..];
      assert names == [names[0]] + names[1..];
    }
  }

  lemma {:induction false} UnsubscribeWire(s: State, pattern: bool, names: seq<string>)
    ensures s.wire <= UnsubscribeAll(s, pattern, names).wire
    decreases |names|
  {
    if names == [] {
    } else {
      UnsubscribeWire(UnsubscribeOne(s, Topic(pattern, names[0])), pattern, names[1..]);
    }
  }

  lemma ClashStep(s: State, e: Event)
    requires Inv(s) && Clash(s)
    ensures Clash(Apply(s, e)) || Surplus(Apply(s, e))
  {
    match e {
      case Subscribe(pattern, names, id) =>
        SubscribeWire(s, pattern, names, id, 1);
        ClashAppend(s, Apply(s, e));
      case Unsubscribe(pattern, names) =>
        UnsubscribeWire(s, pattern, names);
        ClashAppend(s, Apply(s, e));
      case Other(id) => ClashAppend(s, Apply(s, e));
      case Receive =>
        if s.wire != [] {
          ClashDeliver(s);
        }
    }
  }

  lemma DoomedStep(s: State, e: Event)
    requires Inv(s) && Doomed(s)
    ensures Doomed(Apply(s, e))
  {
    if Surplus(s) {
      SurplusStep(s, e);
    } else if Clash(s) {
      ClashStep(s, e);
    } else {
      var t :| Excess(s, t);
      ExcessStep(s, e, t);
    }
  }

  /** A command that is not apart puts a subscription behind a counted unsubscription. */
  lemma NotApart(s: State, pattern: bool, names: seq<string>, id: nat)
    requires !Apart(s, pattern, names)
    ensures Clash(SubscribeAll(s, pattern, names, id, 1))
  {
    var d := SubscribeAll(s, pattern, names, id, 1);
    var j :| 0 <= j < |s.wire| && s.wire[j].Unsubscribed? && s.wire[j].counted && s.wire[j].t.pattern == pattern && s.wire[j].t.name in names;
    var t := s.wire[j].t;
    SubscribeWire(s, pattern, names, id, 1);
    assert t == Topic(pattern, t.name);
    var k :| 0 <= k < |d.wire| - |s.wire| && d.wire[|s.wire|..][k] == Subscribed(t);
    assert d.wire[|s.wire| + k] == Subscribed(t) && d.wire[j] == s.wire[j];
  }

  /** A command that is not plain leaves a count that is too high. */
  lemma NotPlain(s: State, pattern: bool, names: seq<string>, id: nat)
    requires Inv(s) && !Plain(s, pattern, names)
    ensures Doomed(SubscribeAll(s, pattern, names, id, 1))
  {
    var d := SubscribeAll(s, pattern, names, id, 1);
    SubscribeOk(s, pattern, names, id, 1);
    if Exact(s) {
      SubscribeExactIff(s, pattern, names, id, 1);
      var t :| t in d.subs && d.subs[t].pendingSubs != Subs(d.wire, t);
      assert Excess(d, t);
    } else {
      var t :| t in s.subs && s.subs[t].pendingSubs != Subs(s.wire, t);
      assert Excess(s, t);
      ExcessSubscribe(s, pattern, names, id, 1, t);
    }
  }

  lemma {:induction false} DisorderlyRunDoomed(es: seq<Event>)
    requires !OrderlyRun(es)
    ensures Doomed(Run(es))
  {
    if es == [] {
    } else {
      var init, e := es[..|es| - 1], es[|es| - 1];
      RunOk(init);
      if !OrderlyRun(init) {
        DisorderlyRunDoomed(init);
        DoomedStep(Run(init), e);
      } else if !Plain(Run(init), e.pattern, e.names) {
        NotPlain(Run(init), e.pattern, e.names, e.id);
      } else {
        NotApart(Run(init), e.pattern, e.names, e.id);
      }
    }
  }

  // ---------------------------------------------------------------- the exact condition

  /** When all is quiet the client has left subscribed context, if and only if every SUBSCRIBE
      of the run was plain and apart. */
  lemma LeavesIffOrderly(es: seq<Event>)
    requires Quiet(Run(es))
    ensures !Run(es).subscribed <==> OrderlyRun(es)
  {
    var s := Run(es);
    QuietSubscribed(es);
    if OrderlyRun(es) {
      OrderlyRunOk(es);
      assert forall t :: t !in s.subs;
    } else {
      DisorderlyRunDoomed(es);
    }
  }

  // ---------------------------------------------------------------- a count that is not taken back

  /** SUBSCRIBE a, UNSUBSCRIBE a twice, SUBSCRIBE a, and all of it is confirmed. */
  lemma RenewedTooEarly(s: State)
    requires s == CONNECTED
    ensures var sub, unsub := Subscribe(false, ["a"], 1), Unsubscribe(false, ["a"]);
            Apply(Apply(Apply(Apply(s, sub), unsub), unsub), sub)
            == State(map[A := Callback(1, 2, false)], 1, true, [], [], {},
                     [Subscribed(A), Unsubscribed(A, false), Unsubscribed(A, true), Subscribed(A)])
  {
    var sub, unsub := Subscribe(false, ["a"], 1), Unsubscribe(false, ["a"]);
    assert ["a"][1..] == [];
    var s1 := State(map[A := Callback(1, 1, false)], 0, true, [], [], {}, [Subscribed(A)]);
    assert Apply(s, sub) == s1;
    var s2 := State(map[A := Callback(1, 1, true)], 0, true, [], [], {}, [Subscribed(A), Unsubscribed(A, false)]);
    assert Apply(s1, unsub) == s2;
    var s3 := State(map[A := Callback(1, 1, true)], 1, true, [], [], {},
                    [Subscribed(A), Unsubscribed(A, false), Unsubscribed(A, true)]);
    assert Apply(s2, unsub) == s3;
  }

  lemma FourReplies(s: State)
    requires s == State(map[A := Callback(1, 2, false)], 1, true, [], [], {},
                        [Subscribed(A), Unsubscribed(A, false), Unsubscribed(A, true), Subscribed(A)])
    ensures Apply(Apply(Apply(Apply(s, Receive), Receive), Receive), Receive)
            == State(map[A := Callback(1, 0, false)], 1, true, [], [], {A}, [])
  {
    var s1 := State(map[A := Callback(1, 1, false)], 1, true, [], [], {A},
                    [Unsubscribed(A, false), Unsubscribed(A, true), Subscribed(A)]);
    assert Apply(s, Receive) == s1;
    var s2 := State(map[A := Callback(1, 1, false)], 1, true, [], [], {}, [Unsubscribed(A, true), Subscribed(A)]);
    assert Apply(s1, Receive) == s2;
    var s3 := State(map[A := Callback(1, 1, false)], 1, true, [], [], {}, [Subscribed(A)]);
    assert Apply(s2, Receive) == s3;
  }

  lemma LastUnsubscribe(s: State)
    requires s == State(map[A := Callback(1, 0, false)], 1, true, [], [], {A}, [])
    ensures Apply(Apply(s, Unsubscribe(false, ["a"])), Receive) == State(map[], 1, true, [], [], {}, [])
  {
    assert ["a"][1..] == [];
    var s1 := State(map[A := Callback(1, 0, true)], 1, true, [], [], {A}, [Unsubscribed(A, false)]);
    assert Apply(s, Unsubscribe(false, ["a"])) == s1;
  }

  lemma RunFour(es: seq<Event>, a: Event, b: Event, c: Event, d: Event)
    ensures Run(es + [a, b, c, d]) == Apply(Apply(Apply(Apply(Run(es), a), b), c), d)
  {
    RunNext(es, a);
    RunNext(es + [a], b);
    RunNext(es + [a] + [b], c);
    RunNext(es + [a] + [b] + [c], d);
    assert es + [a, b, c, d] == es + [a] + [b] + [c] + [d];
  }

  lemma TwiceThenOnce(sub: Event, unsub: Event, fs: seq<Event>, gs: seq<Event>)
    requires sub == Subscribe(false, ["a"], 1) && unsub == Unsubscribe(false, ["a"])
    requires fs == [sub, unsub, unsub, sub] && gs == [Receive, Receive, Receive, Receive]
    ensures Run(fs + gs) == State(map[A := Callback(1, 0, false)], 1, true, [], [], {A}, [])
  {
    RunFour([], sub, unsub, unsub, sub);
    assert [] + fs == fs;
    RunFour(fs, Receive, Receive, Receive, Receive);
    RenewedTooEarly(CONNECTED);
    FourReplies(Run(fs));
  }

  lemma OneTopicRun(es: seq<Event>, sub: Event, unsub: Event, fs: seq<Event>, gs: seq<Event>)
    requires sub == Subscribe(false, ["a"], 1) && unsub == Unsubscribe(false, ["a"])
    requires fs == [sub, unsub, unsub, sub] && gs == [Receive, Receive, Receive, Receive]
    requires es == fs + gs + [unsub] + [Receive]
    ensures Run(es) == State(map[], 1, true, [], [], {}, [])
  {
    TwiceThenOnce(sub, unsub, fs, gs);
    RunNext(fs + gs, unsub);
    RunNext(fs + gs + [unsub], Receive);
    LastUnsubscribe(Run(fs + gs));
  }

  lemma OneTopicPlain(es: seq<Event>, sub: Event, unsub: Event, fs: seq<Event>, gs: seq<Event>)
    requires sub == Subscribe(false, ["a"], 1) && unsub.Unsubscribe?
    requires fs == [sub, unsub, unsub, sub] && gs == [Receive, Receive, Receive, Receive]
    requires es == fs + gs + [unsub] + [Receive]
    ensures PlainRun(es)
  {
    forall i | 0 <= i < |es|
      ensures es[i].Subscribe? ==> |es[i].names| <= 1
    {
      assert es[i] == if i < 4 then fs[i] else if i < 8 then gs[i - 4] else if i == 8 then unsub else Receive;
    }
    SingleNames(es);
  }

  /** This run is plain but not apart: the dictionary is empty at its end, and one reply is
      still to be ignored that never comes. */
  lemma StaysSubscribedForOneTopic() returns (es: seq<Event>)
    ensures PlainRun(es) && Quiet(Run(es)) && Run(es).subs == map[] && Surplus(Run(es))
    ensures forall fs: seq<Event> :: Run(es + fs).subscribed
  {
    var sub, unsub := Subscribe(false, ["a"], 1), Unsubscribe(false, ["a"]);
    var fs, gs := [sub, unsub, unsub, sub], [Receive, Receive, Receive, Receive];
    es := fs + gs + [unsub] + [Receive];
    OneTopicRun(es, sub, unsub, fs, gs);
    OneTopicPlain(es, sub, unsub, fs, gs);
    ForEver(es);
  }

  lemma ForEver(es: seq<Event>)
    requires Surplus(Run(es))
    ensures forall fs: seq<Event> :: Run(es + fs).subscribed
  {
    forall fs: seq<Event>
      ensures Run(es + fs).subscribed
    {
      NeverLeaves(es, fs);
    }
  }

  /** Nor does the client ever leave after the run of `StaysSubscribed`. */
  lemma PipelinedForEver(fs: seq<Event>)
    ensures Run(PIPELINED + fs).subscribed
  {
    StaysSubscribed();
    assert Excess(Run(PIPELINED), B);
    NeverLeaves(PIPELINED, fs);
  }

  /** A SUBSCRIBE of one name is always plain. */
  lemma {:induction false} SingleNames(es: seq<Event>)
    requires forall i :: 0 <= i < |es| && es[i].Subscribe? ==> |es[i].names| <= 1
    ensures PlainRun(es)
  {
    if es == [] {
    } else {
      SingleNames(es[..|es| - 1]);
    }
  }
}
