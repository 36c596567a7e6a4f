/** Subscriptions of the asynchronous Redis client (`async.c`) against a server that answers in
    order: the callback of every topic with its count of confirmations still to come, the count
    of replies to ignore, the subscribed flag, and the two queues of callbacks for other
    commands.

    The dictionaries of channels and of patterns are one map, keyed by kind and name. */
module PubSub {

  datatype Topic = Topic(pattern: bool, name: string)

  /** redisCallback; id stands for the function and its data. */
  datatype Callback = Callback(id: nat, pendingSubs: int, unsubscribeSent: bool)

  /** What the server will answer. For an unsubscription the model remembers whether it was
      counted in pending_unsubs. */
  datatype Reply = Subscribed(t: Topic) | Unsubscribed(t: Topic, counted: bool) | Answer(id: nat)

  datatype State = State(
    subs: map<Topic, Callback>,   // sub.channels and sub.patterns
    pendingUnsubs: int,
    subscribed: bool,             // REDIS_SUBSCRIBED
    replies: seq<nat>,
    subReplies: seq<nat>,         // sub.replies
    active: set<Topic>,           // what the server has subscribed up to here
    wire: seq<Reply>)             // what it has still to answer

  const CONNECTED: State := State(map[], 0, false, [], [], {}, [])

  // ---------------------------------------------------------------- commands

  /** One topic of a SUBSCRIBE. The count is carried from topic to topic. */
  function SubscribeOne(s: State, t: Topic, id: nat, count: int): State {
    s.(subs := s.subs[t := Callback(id, count, false)], subscribed := true, wire := s.wire + [Subscribed(t)])
  }

  function Count(s: State, t: Topic, carried: int): int {
    if t in s.subs then s.subs[t].pendingSubs + 1 else carried
  }

  function SubscribeAll(s: State, pattern: bool, names: seq<string>, id: nat, carried: int): State
    decreases |names|
  {
    if names == [] then s
    else
      var t := Topic(pattern, names[0]);
      var count := Count(s, t, carried);
      SubscribeAll(SubscribeOne(s, t, id, count), pattern, names[1..], id, count)
  }

  /** One topic of an UNSUBSCRIBE: the first since the last subscription is remembered at the
      topic, the others are counted. */
  function UnsubscribeOne(s: State, t: Topic): State {
    if t in s.subs && !s.subs[t].unsubscribeSent then
      s.(subs := s.subs[t := s.subs[t].(unsubscribeSent := true)], wire := s.wire + [Unsubscribed(t, false)])
    else
      s.(pendingUnsubs := s.pendingUnsubs + 1, wire := s.wire + [Unsubscribed(t, true)])
  }

  function UnsubscribeAll(s: State, pattern: bool, names: seq<string>): State
    decreases |names|
  {
    if names == [] then s else UnsubscribeAll(UnsubscribeOne(s, Topic(pattern, names[0])), pattern, names[1..])
  }

  function OtherCommand(s: State, id: nat): State {
    var t := s.(wire := s.wire + [Answer(id)]);
    if s.subscribed then t.(subReplies := s.subReplies + [id]) else t.(replies := s.replies + [id])
  }

  // ---------------------------------------------------------------- replies

  datatype Outcome = AssertionFails | Ignored | Runs(id: nat)

  function Lookup(s: State, t: Topic): Outcome {
    if t in s.subs then Runs(s.subs[t].id) else Ignored
  }

  /** What a confirmed unsubscription leaves of the topics and the counts. */
  function EndTopic(s: State, t: Topic): State {
    if t !in s.subs then s.(pendingUnsubs := s.pendingUnsubs - 1)
    else if s.subs[t].pendingSubs == 0 then s.(subs := s.subs - {t})
    else s
  }

  /** `__redisGetSubscribeCallback`; integer is the number of subscriptions the reply tells. */
  function GetSubscribeCallback(s: State, r: Reply, integer: nat): (State, Outcome) {
    match r
    case Subscribed(t) =>
      if t !in s.subs then (s, AssertionFails)
      else (s.(subs := s.subs[t := s.subs[t].(pendingSubs := s.subs[t].pendingSubs - 1)]), Lookup(s, t))
    case Unsubscribed(t, _) =>
      var d := EndTopic(s, t);
      (if integer == 0 && d.subs == map[] && d.pendingUnsubs == 0 then Leave(d) else d, Lookup(s, t))
    case Answer(_) =>
      if s.subReplies == [] then (s, Ignored) else (s.(subReplies := s.subReplies[1..]), Runs(s.subReplies[0]))
  }

  /** Back to the context of other commands. */
  function Leave(s: State): State {
    s.(subscribed := false, replies := s.replies + s.subReplies, subReplies := [])
  }

  /** One round of `redisProcessCallbacks`. */
  function Process(s: State, r: Reply, integer: nat): (State, Outcome) {
    if s.replies != [] then (s.(replies := s.replies[1..]), Runs(s.replies[0]))
    else if !s.subscribed then (s, AssertionFails)
    else GetSubscribeCallback(s, r, integer)
  }

  /** The server takes the next command, and its answer is processed. */
  function Serve(s: State): State
    requires s.wire != []
  {
    s.(wire := s.wire[1..],
       active := match s.wire[0]
                 case Subscribed(t) => s.active + {t}
                 case Unsubscribed(t, _) => s.active - {t}
                 case Answer(_) => s.active)
  }

  function Deliver(s: State): (State, Outcome)
    requires s.wire != []
  {
    var d := Serve(s);
    Process(d, s.wire[0], |d.active|)
  }

  /** A message that is pushed for a topic; it changes nothing. */
  function Message(s: State, t: Topic): Outcome {
    if s.replies != [] then Runs(s.replies[0])
    else if !s.subscribed then AssertionFails
    else Lookup(s, t)
  }

  // ---------------------------------------------------------------- invariant

  function Subs(q: seq<Reply>, t: Topic): nat {
    if q == [] then 0 else Subs(q[..|q| - 1], t) + if q[|q| - 1] == Subscribed(t) then 1 else 0
  }

  function CountedUnsubs(q: seq<Reply>): nat {
    if q == [] then 0
    else CountedUnsubs(q[..|q| - 1]) + if q[|q| - 1].Unsubscribed? && q[|q| - 1].counted then 1 else 0
  }

  function Answers(q: seq<Reply>): seq<nat> {
    if q == [] then []
    else Answers(q[..|q| - 1]) + if q[|q| - 1].Answer? then [q[|q| - 1].id] else []
  }

  predicate IsUnsub(r: Reply, t: Topic) {
    r.Unsubscribed? && r.t == t
  }

  /** Behind every unsubscription of the topic there is a subscription. */
  predicate Renewed(q: seq<Reply>, t: Topic) {
    q == [] || q[|q| - 1] == Subscribed(t) || (!IsUnsub(q[|q| - 1], t) && Renewed(q[..|q| - 1], t))
  }

  /** No fewer confirmations are expected than are to come. */
  ghost predicate Confirmations(s: State) {
    forall t :: Subs(s.wire, t) <= if t in s.subs then s.subs[t].pendingSubs else 0
  }

  /** No fewer replies are to be ignored than were counted; an unsubscription that was not
      counted comes when its topic is still there. */
  ghost predicate Ignorable(s: State) {
    && s.pendingUnsubs >= CountedUnsubs(s.wire)
    && (forall j :: 0 <= j < |s.wire| && s.wire[j].Unsubscribed? && !s.wire[j].counted ==>
                      s.wire[j].t in s.subs && Renewed(s.wire[..j], s.wire[j].t))
    && (forall t :: t in s.subs && !s.subs[t].unsubscribeSent ==> Renewed(s.wire, t))
  }

  /** The callbacks of other commands are queued in the order of their answers, and those of
      the first queue come before everything else. */
  ghost predicate Queues(s: State) {
    && |s.replies| <= |s.wire|
    && (forall i :: 0 <= i < |s.replies| ==> s.wire[i] == Answer(s.replies[i]))
    && Answers(s.wire[|s.replies|..]) == s.subReplies
    && (!s.subscribed ==> |s.wire| == |s.replies|)
  }

  ghost predicate Server(s: State) {
    && s.active <= s.subs.Keys
    && (s.active != {} ==> s.subscribed && s.replies == [])
  }

  ghost predicate Inv(s: State) {
    Confirmations(s) && Ignorable(s) && Queues(s) && Server(s)
  }

  // ---------------------------------------------------------------- commands keep it

  lemma Snoc(q: seq<Reply>, r: Reply, t: Topic)
    ensures Subs(q + [r], t) == Subs(q, t) + if r == Subscribed(t) then 1 else 0
    ensures CountedUnsubs(q + [r]) == CountedUnsubs(q) + if r.Unsubscribed? && r.counted then 1 else 0
    ensures Answers(q + [r]) == Answers(q) + if r.Answer? then [r.id] else []
    ensures Renewed(q + [r], t) <==> r == Subscribed(t) || (!IsUnsub(r, t) && Renewed(q, t))
  {
    assert (q + [r])[..|q|] == q;
  }

  lemma SnocAll(q: seq<Reply>, r: Reply)
    ensures forall t :: Subs(q + [r], t) == Subs(q, t) + if r == Subscribed(t) then 1 else 0
    ensures forall t :: Renewed(q + [r], t) <==> r == Subscribed(t) || (!IsUnsub(r, t) && Renewed(q, t))
    ensures CountedUnsubs(q + [r]) == CountedUnsubs(q) + if r.Unsubscribed? && r.counted then 1 else 0
    ensures Answers(q + [r]) == Answers(q) + if r.Answer? then [r.id] else []
  {
    forall t
      ensures Subs(q + [r], t) == Subs(q, t) + if r == Subscribed(t) then 1 else 0
      ensures Renewed(q + [r], t) <==> r == Subscribed(t) || (!IsUnsub(r, t) && Renewed(q, t))
    {
      Snoc(q, r, t);
    }
    Snoc(q, r, Topic(false, ""));
  }

  /** The queues, when the server has one more thing to answer. */
  lemma QueuesSnoc(s: State, r: Reply, d: State)
    requires Queues(s) && d.wire == s.wire + [r] && d.replies == s.replies && d.subscribed
    requires d.subReplies == s.subReplies + if r.Answer? then [r.id] else []
    ensures Queues(d)
  {
    var n := |s.replies|;
    assert d.wire[n..] == s.wire[n..] + [r];
    SnocAll(s.wire[n..], r);
  }

  /** Prefixes stay what they were. */
  lemma Prefixes(q: seq<Reply>, r: Reply)
    ensures forall j :: 0 <= j < |q| ==> (q + [r])[..j] == q[..j]
  {
  }

  lemma SubscribeOneOk(s: State, t: Topic, id: nat, carried: int)
    requires Inv(s) && carried >= 1
    ensures Inv(SubscribeOne(s, t, id, Count(s, t, carried))) && Count(s, t, carried) >= 1
  {
    var r := Subscribed(t);
    var d := SubscribeOne(s, t, id, Count(s, t, carried));
    SnocAll(s.wire, r);
    Prefixes(s.wire, r);
    QueuesSnoc(s, r, d);
    assert Subs(s.wire, t) >= 0;
    assert Confirmations(d);
  }

  lemma {:induction false} SubscribeOk(s: State, pattern: bool, names: seq<string>, id: nat, carried: int)
    requires Inv(s) && carried >= 1
    ensures Inv(SubscribeAll(s, pattern, names, id, carried))
    decreases |names|
  {
    if names == [] {
    } else {
      var t := Topic(pattern, names[0]);
      var count := Count(s, t, carried);
      SubscribeOneOk(s, t, id, carried);
      SubscribeOk(SubscribeOne(s, t, id, count), pattern, names[1..], id, count);
    }
  }

  /** What was on the wire stays as it was, when one more reply comes behind it. */
  lemma IgnorableSnoc(s: State, r: Reply, subs: map<Topic, Callback>, j: nat)
    requires Ignorable(s) && s.subs.Keys <= subs.Keys && j < |s.wire|
    requires s.wire[j].Unsubscribed? && !s.wire[j].counted
    ensures s.wire[j].t in subs && Renewed((s.wire + [r])[..j], s.wire[j].t)
  {
    assert (s.wire + [r])[..j] == s.wire[..j];
  }

  lemma UnsubscribeOneIgnorable(s: State, t: Topic)
    requires Ignorable(s)
    ensures Ignorable(UnsubscribeOne(s, t))
  {
    var d := UnsubscribeOne(s, t);
    var r := Unsubscribed(t, !(t in s.subs && !s.subs[t].unsubscribeSent));
    assert d.wire == s.wire + [r];
    SnocAll(s.wire, r);
    forall j | 0 <= j < |d.wire| && d.wire[j].Unsubscribed? && !d.wire[j].counted
      ensures d.wire[j].t in d.subs && Renewed(d.wire[..j], d.wire[j].t)
    {
      if j < |s.wire| {
        IgnorableSnoc(s, r, d.subs, j);
      } else {
        assert d.wire[..j] == s.wire;
      }
    }
  }

  lemma UnsubscribeOneConfirmations(s: State, t: Topic)
    requires Confirmations(s)
    ensures Confirmations(UnsubscribeOne(s, t))
  {
    var d := UnsubscribeOne(s, t);
    SnocAll(s.wire, d.wire[|s.wire|]);
    assert forall x :: Subs(d.wire, x) == Subs(s.wire, x);
  }

  lemma UnsubscribeOneOk(s: State, t: Topic)
    requires Inv(s) && s.subscribed
    ensures Inv(UnsubscribeOne(s, t)) && UnsubscribeOne(s, t).subscribed
  {
    QueuesSnoc(s, UnsubscribeOne(s, t).wire[|s.wire|], UnsubscribeOne(s, t));
    UnsubscribeOneIgnorable(s, t);
    UnsubscribeOneConfirmations(s, t);
  }

  lemma {:induction false} UnsubscribeOk(s: State, pattern: bool, names: seq<string>)
    requires Inv(s) && s.subscribed
    ensures Inv(UnsubscribeAll(s, pattern, names))
    decreases |names|
  {
    if names == [] {
    } else {
      UnsubscribeOneOk(s, Topic(pattern, names[0]));
      UnsubscribeOk(UnsubscribeOne(s, Topic(pattern, names[0])), pattern, names[1..]);
    }
  }

  lemma OtherIgnorable(s: State, id: nat)
    requires Ignorable(s) && Confirmations(s)
    ensures Ignorable(OtherCommand(s, id)) && Confirmations(OtherCommand(s, id))
  {
    var d := OtherCommand(s, id);
    SnocAll(s.wire, Answer(id));
    forall j | 0 <= j < |d.wire| && d.wire[j].Unsubscribed? && !d.wire[j].counted
      ensures d.wire[j].t in d.subs && Renewed(d.wire[..j], d.wire[j].t)
    {
      IgnorableSnoc(s, Answer(id), d.subs, j);
    }
  }

  lemma OtherOk(s: State, id: nat)
    requires Inv(s)
    ensures Inv(OtherCommand(s, id))
  {
    var d := OtherCommand(s, id);
    OtherIgnorable(s, id);
    if s.subscribed {
      QueuesSnoc(s, Answer(id), d);
    } else {
      assert d.wire[|d.replies|..] == [] == s.wire[|s.replies|..];
    }
  }

  // ---------------------------------------------------------------- answers keep it

  lemma {:induction false} Head(q: seq<Reply>, t: Topic)
    requires q != []
    ensures Subs(q, t) == Subs(q[1..], t) + if q[0] == Subscribed(t) then 1 else 0
    ensures CountedUnsubs(q) == CountedUnsubs(q[1..]) + if q[0].Unsubscribed? && q[0].counted then 1 else 0
    ensures Answers(q) == (if q[0].Answer? then [q[0].id] else []) + Answers(q[1..])
    ensures Renewed(q, t) ==> Renewed(q[1..], t)
  {
    if |q| <= 1 {
    } else {
      var init := q[..|q| - 1];
      Head(init, t);
      assert q[1..][..|q| - 2] == init[1..];
    }
  }

  lemma HeadAll(q: seq<Reply>)
    requires q != []
    ensures forall t :: Subs(q, t) == Subs(q[1..], t) + if q[0] == Subscribed(t) then 1 else 0
    ensures forall t :: Renewed(q, t) ==> Renewed(q[1..], t)
    ensures CountedUnsubs(q) == CountedUnsubs(q[1..]) + if q[0].Unsubscribed? && q[0].counted then 1 else 0
    ensures Answers(q) == (if q[0].Answer? then [q[0].id] else []) + Answers(q[1..])
  {
    forall t
      ensures Subs(q, t) == Subs(q[1..], t) + if q[0] == Subscribed(t) then 1 else 0
      ensures Renewed(q, t) ==> Renewed(q[1..], t)
    {
      Head(q, t);
    }
    Head(q, Topic(false, ""));
  }

  /** Every uncounted unsubscription keeps its renewal when the first reply is gone. */
  lemma RenewedRest(q: seq<Reply>, j: nat, t: Topic)
    requires 0 < j <= |q| && Renewed(q[..j], t)
    ensures Renewed(q[1..][..j - 1], t)
  {
    Head(q[..j], t);
    assert q[..j][1..] == q[1..][..j - 1];
  }

  /** With no subscription to come, an unsubscription ahead means that it is not renewed. */
  lemma {:induction false} NotRenewed(q: seq<Reply>, t: Topic)
    requires q != [] && IsUnsub(q[0], t) && Subs(q, t) == 0
    ensures !Renewed(q, t)
  {
    if |q| <= 1 {
    } else {
      NotRenewed(q[..|q| - 1], t);
    }
  }

  lemma {:induction false} SubsPrefix(q: seq<Reply>, j: nat, t: Topic)
    requires j <= |q|
    ensures Subs(q[..j], t) <= Subs(q, t)
  {
    if j < |q| {
      SubsPrefix(q[..|q| - 1], j, t);
      assert q[..|q| - 1][..j] == q[..j];
    } else {
      assert q[..j] == q;
    }
  }

  /** The first reply is gone; what it says has not been processed. */
  lemma Popped(s: State)
    requires Inv(s) && s.wire != []
    ensures var q := s.wire[1..];
            && (forall t :: Subs(q, t) <= Subs(s.wire, t))
            && (forall j :: 0 <= j < |q| && q[j].Unsubscribed? && !q[j].counted ==>
                              q[j].t in s.subs && Renewed(q[..j], q[j].t))
            && (forall t :: t in s.subs && !s.subs[t].unsubscribeSent ==> Renewed(q, t))
  {
    var q := s.wire[1..];
    HeadAll(s.wire);
    forall j | 0 <= j < |q| && q[j].Unsubscribed? && !q[j].counted
      ensures q[j].t in s.subs && Renewed(q[..j], q[j].t)
    {
      assert q[j] == s.wire[j + 1];
      RenewedRest(s.wire, j + 1, q[j].t);
    }
  }

  lemma AnswerOk(s: State)
    requires Inv(s) && s.wire != [] && s.wire[0].Answer?
    ensures Inv(Deliver(s).0) && Deliver(s).1 == Runs(s.wire[0].id)
  {
    var d := Deliver(s).0;
    HeadAll(s.wire);
    Popped(s);
    if s.replies == [] {
      assert s.wire[0..] == s.wire;
      assert d.wire[0..] == d.wire;
    } else {
      assert s.wire[|s.replies|..] == d.wire[|d.replies|..];
    }
  }

  /** When a subscription or an unsubscription is confirmed, no other command waits in front
      of it, and the context is subscribed. */
  lemma FrontIsClear(s: State)
    requires Queues(s) && s.wire != [] && !s.wire[0].Answer?
    ensures s.replies == [] && s.subscribed && Answers(s.wire[1..]) == s.subReplies
  {
    assert s.wire[0..] == s.wire;
    HeadAll(s.wire);
  }

  lemma SubscribedOk(s: State)
    requires Inv(s) && s.wire != [] && s.wire[0].Subscribed?
    ensures Inv(Deliver(s).0) && s.wire[0].t in s.subs && Deliver(s).1 == Runs(s.subs[s.wire[0].t].id)
  {
    var t := s.wire[0].t;
    FrontIsClear(s);
    HeadAll(s.wire);
    Popped(s);
    assert Subs(s.wire, t) >= 1;
    var d := Deliver(s).0;
    assert d.wire[0..] == d.wire;
    assert Confirmations(d);
  }

  // ---------------------------------------------------------------- the end of a subscription

  /** With no topic left and nothing to ignore, the server has only other answers to give. */
  lemma {:induction false} OnlyAnswers(q: seq<Reply>)
    requires forall t :: Subs(q, t) == 0
    requires CountedUnsubs(q) == 0
    requires forall j :: 0 <= j < |q| && q[j].Unsubscribed? ==> q[j].counted
    ensures |Answers(q)| == |q| && forall j :: 0 <= j < |q| ==> q[j] == Answer(Answers(q)[j])
  {
    if q == [] {
    } else {
      var init, last := q[..|q| - 1], q[|q| - 1];
      assert forall t :: Subs(q, t) == Subs(init, t) + if last == Subscribed(t) then 1 else 0;
      assert last.Subscribed? ==> Subs(q, last.t) >= 1;
      assert forall j :: 0 <= j < |init| ==> init[j] == q[j];
      OnlyAnswers(init);
    }
  }

  lemma LeaveOk(d: State)
    requires Confirmations(d) && Ignorable(d) && d.subs == map[] && d.pendingUnsubs == 0
    requires d.replies == [] && Answers(d.wire) == d.subReplies && d.active == {}
    ensures Inv(Leave(d)) && forall j :: 0 <= j < |d.wire| ==> d.wire[j].Answer?
  {
    OnlyAnswers(d.wire);
    assert d.wire[|d.wire|..] == [];
  }

  lemma UnsubscribedCounts(s: State, t: Topic)
    requires Inv(s) && s.wire != [] && IsUnsub(s.wire[0], t)
    ensures Confirmations(EndTopic(Serve(s), t)) && Ignorable(EndTopic(Serve(s), t))
  {
    var q := s.wire[1..];
    HeadAll(s.wire);
    Popped(s);
    var d := EndTopic(Serve(s), t);
    if t in s.subs && s.subs[t].pendingSubs == 0 {
      assert Subs(s.wire, t) == 0;
      forall j | 0 <= j < |q| && IsUnsub(q[j], t)
        ensures q[j].counted
      {
        assert s.wire[j + 1] == q[j];
        SubsPrefix(s.wire, j + 1, t);
        NotRenewed(s.wire[..j + 1], t);
      }
    }
    assert Confirmations(d);
  }

  lemma StaysOk(s: State, d: State)
    requires Inv(s) && s.wire != [] && s.wire[0].Unsubscribed? && d == EndTopic(Serve(s), s.wire[0].t)
    requires Confirmations(d) && Ignorable(d)
    ensures d.replies == [] && d.subscribed && Answers(d.wire) == d.subReplies
    ensures Queues(d) && Server(d)
  {
    FrontIsClear(s);
    assert d.wire[0..] == d.wire;
  }

  lemma DeliverUnsubscribed(s: State, d: State)
    requires s.wire != [] && s.wire[0].Unsubscribed? && d == EndTopic(Serve(s), s.wire[0].t)
    requires s.replies == [] && s.subscribed
    ensures Deliver(s).0 == if |d.active| == 0 && d.subs == map[] && d.pendingUnsubs == 0 then Leave(d) else d
    ensures Deliver(s).1 != AssertionFails
  {
  }

  /** The flag is unset only when the server has no subscription left and nothing to answer
      but other commands. */
  lemma UnsubscribedOk(s: State)
    requires Inv(s) && s.wire != [] && s.wire[0].Unsubscribed?
    ensures Inv(Deliver(s).0) && Deliver(s).1 != AssertionFails
    ensures !Deliver(s).0.subscribed ==>
              && Deliver(s).0.active == {}
              && forall j :: 1 <= j < |s.wire| ==> s.wire[j].Answer?
  {
    var t := s.wire[0].t;
    var d := EndTopic(Serve(s), t);
    UnsubscribedCounts(s, t);
    StaysOk(s, d);
    DeliverUnsubscribed(s, d);
    if |d.active| == 0 && d.subs == map[] && d.pendingUnsubs == 0 {
      LeaveOk(d);
      assert forall j :: 1 <= j < |s.wire| ==> s.wire[j] == d.wire[j - 1];
    }
  }

  // ---------------------------------------------------------------- runs

  /** Commands of the application, and answers of the server. */
  datatype Event =
    | Subscribe(pattern: bool, names: seq<string>, id: nat)
    | Unsubscribe(pattern: bool, names: seq<string>)
    | Other(id: nat)
    | Receive

  /** An UNSUBSCRIBE is refused in a context that is not subscribed. */
  function Apply(s: State, e: Event): State {
    match e
    case Subscribe(pattern, names, id) => SubscribeAll(s, pattern, names, id, 1)
    case Unsubscribe(pattern, names) => if s.subscribed then UnsubscribeAll(s, pattern, names) else s
    case Other(id) => OtherCommand(s, id)
    case Receive => if s.wire == [] then s else Deliver(s).0
  }

  function Run(es: seq<Event>): State {
    if es == [] then CONNECTED else Apply(Run(es[..|es| - 1]), es[|es| - 1])
  }

  lemma DeliverOk(s: State)
    requires Inv(s) && s.wire != []
    ensures Inv(Deliver(s).0) && Deliver(s).1 != AssertionFails
  {
    match s.wire[0] {
      case Subscribed(_) => SubscribedOk(s);
      case Unsubscribed(_, _) => UnsubscribedOk(s);
      case Answer(_) => AnswerOk(s);
    }
  }

  lemma StepOk(s: State, e: Event)
    requires Inv(s)
    ensures Inv(Apply(s, e))
  {
    match e {
      case Subscribe(pattern, names, id) => SubscribeOk(s, pattern, names, id, 1);
      case Unsubscribe(pattern, names) =>
        if s.subscribed {
          UnsubscribeOk(s, pattern, names);
        }
      case Other(id) => OtherOk(s, id);
      case Receive =>
        if s.wire != [] {
          DeliverOk(s);
        }
    }
  }

  lemma {:induction false} RunOk(es: seq<Event>)
    ensures Inv(Run(es))
  {
    if es == [] {
    } else {
      RunOk(es[..|es| - 1]);
      StepOk(Run(es[..|es| - 1]), es[|es| - 1]);
    }
  }

  /** Both assertions hold after every run, every topic has its callback when it is confirmed,
      and every other answer meets the callback of its own command. */
  lemma AnswersFindTheirCallbacks(es: seq<Event>)
    requires Run(es).wire != []
    ensures var s := Run(es);
            && (s.wire[0].Answer? ==> Deliver(s).1 == Runs(s.wire[0].id))
            && (s.wire[0].Subscribed? ==> s.wire[0].t in s.subs && Deliver(s).1 == Runs(s.subs[s.wire[0].t].id))
            && (s.wire[0].Unsubscribed? ==> Deliver(s).1 == Lookup(s, s.wire[0].t))
  {
    RunOk(es);
    var s := Run(es);
    match s.wire[0] {
      case Subscribed(_) => SubscribedOk(s);
      case Unsubscribed(_, _) => FrontIsClear(s);
      case Answer(_) => AnswerOk(s);
    }
  }

  /** As long as the server has a subscription, a message for it runs its callback. */
  lemma MessagesFindTheirCallbacks(es: seq<Event>, t: Topic)
    requires t in Run(es).active
    ensures t in Run(es).subs && Message(Run(es), t) == Runs(Run(es).subs[t].id)
  {
    RunOk(es);
  }

  /** Out of subscribed context nothing that belongs to a subscription is on the way. */
  lemma UnsubscribedMeansQuiet(es: seq<Event>)
    requires !Run(es).subscribed
    ensures Run(es).active == {} && forall j :: 0 <= j < |Run(es).wire| ==> Run(es).wire[j].Answer?
  {
    RunOk(es);
  }

  // ---------------------------------------------------------------- when the counts are exact

  ghost predicate Exact(s: State) {
    forall t :: t in s.subs ==> s.subs[t].pendingSubs == Subs(s.wire, t)
  }

  /** The topic is in the dictionary when its turn comes. */
  predicate Known(s: State, pattern: bool, names: seq<string>, i: nat)
    requires i < |names|
  {
    Topic(pattern, names[i]) in s.subs || names[i] in names[..i]
  }

  /** No confirmation is to come for a known topic in front of a new one. */
  predicate PlainAt(s: State, pattern: bool, names: seq<string>, i: nat)
    requires i < |names|
  {
    i + 1 < |names| && Known(s, pattern, names, i) && !Known(s, pattern, names, i + 1) ==>
      names[i] !in names[..i] && s.subs[Topic(pattern, names[i])].pendingSubs == 0
  }

  ghost predicate Plain(s: State, pattern: bool, names: seq<string>) {
    forall i :: 0 <= i < |names| ==> PlainAt(s, pattern, names, i)
  }

  /** Too high a count stays too high. */
  lemma {:induction false} ExcessStays(s: State, pattern: bool, names: seq<string>, id: nat, carried: int, t: Topic)
    requires t in s.subs && s.subs[t].pendingSubs != Subs(s.wire, t)
    ensures !Exact(SubscribeAll(s, pattern, names, id, carried))
    decreases |names|
  {
    if names == [] {
    } else {
      var x := Topic(pattern, names[0]);
      var count := Count(s, x, carried);
      Snoc(s.wire, Subscribed(x), t);
      ExcessStays(SubscribeOne(s, x, id, count), pattern, names[1..], id, count, t);
    }
  }

  lemma OneExact(s: State, t: Topic, id: nat, carried: int)
    requires Inv(s) && Exact(s)
    ensures var d := SubscribeOne(s, t, id, Count(s, t, carried));
            && (Exact(d) <==> t in s.subs || carried == 1)
            && (d.subs[t].pendingSubs == Subs(d.wire, t) <==> t in s.subs || carried == 1)
  {
    var d := SubscribeOne(s, t, id, Count(s, t, carried));
    Snoc(s.wire, Subscribed(t), t);
    assert t !in s.subs ==> Subs(s.wire, t) == 0;
    forall x | x in d.subs && x != t
      ensures d.subs[x].pendingSubs == Subs(d.wire, x)
    {
      Snoc(s.wire, Subscribed(t), x);
    }
  }

  lemma KnownNext(s: State, pattern: bool, names: seq<string>, id: nat, count: int, i: nat)
    requires i + 1 < |names|
    ensures var d := SubscribeOne(s, Topic(pattern, names[0]), id, count);
            Known(d, pattern, names[1..], i) == Known(s, pattern, names, i + 1)
  {
    assert names[..i + 1] == [names[0]] + names[1..][..i];
  }

  lemma PlainAtNext(s: State, pattern: bool, names: seq<string>, id: nat, count: int, i: nat)
    requires i + 1 < |names| && count >= 1
    ensures var d := SubscribeOne(s, Topic(pattern, names[0]), id, count);
            PlainAt(d, pattern, names[1..], i) <==> PlainAt(s, pattern, names, i + 1)
  {
    KnownNext(s, pattern, names, id, count, i);
    if i + 2 < |names| {
      KnownNext(s, pattern, names, id, count, i + 1);
    }
    assert names[..i + 1] == [names[0]] + names[1..][..i];
  }

  lemma PlainNext(s: State, pattern: bool, names: seq<string>, id: nat, count: int)
    requires names != [] && count >= 1
    ensures var d := SubscribeOne(s, Topic(pattern, names[0]), id, count);
            Plain(s, pattern, names) <==> PlainAt(s, pattern, names, 0) && Plain(d, pattern, names[1..])
  {
    var d := SubscribeOne(s, Topic(pattern, names[0]), id, count);
    forall i | 0 <= i < |names| - 1
      ensures PlainAt(d, pattern, names[1..], i) <==> PlainAt(s, pattern, names, i + 1)
    {
      PlainAtNext(s, pattern, names, id, count, i);
    }
    if PlainAt(s, pattern, names, 0) && Plain(d, pattern, names[1..]) {
      forall i | 0 <= i < |names|
        ensures PlainAt(s, pattern, names, i)
      {
        assert i > 0 ==> PlainAt(d, pattern, names[1..], i - 1);
      }
    }
  }

  /** A SUBSCRIBE keeps the counts exact exactly when it is plain. */
  lemma {:induction false} SubscribeExactIff(s: State, pattern: bool, names: seq<string>, id: nat, carried: int)
    requires Inv(s) && Exact(s) && carried >= 1
    ensures Exact(SubscribeAll(s, pattern, names, id, carried)) <==>
            Plain(s, pattern, names) && (names != [] && !Known(s, pattern, names, 0) ==> carried == 1)
    decreases |names|
  {
    if names == [] {
    } else {
      var t := Topic(pattern, names[0]);
      var count := Count(s, t, carried);
      var d := SubscribeOne(s, t, id, count);
      SubscribeOneOk(s, t, id, carried);
      OneExact(s, t, id, carried);
      PlainNext(s, pattern, names, id, count);
      if Exact(d) {
        SubscribeExactIff(d, pattern, names[1..], id, count);
        if |names| > 1 {
          KnownNext(s, pattern, names, id, count, 0);
        }
      } else {
        ExcessStays(d, pattern, names[1..], id, count, t);
      }
    }
  }

  lemma ExactEndTopic(s: State, t: Topic)
    requires Exact(s) && s.wire != [] && IsUnsub(s.wire[0], t)
    ensures Exact(EndTopic(Serve(s), t))
  {
    HeadAll(s.wire);
    assert forall x :: Subs(s.wire[1..], x) == Subs(s.wire, x);
  }

  lemma ExactSubscribed(s: State, t: Topic)
    requires Exact(s) && s.wire != [] && s.wire[0] == Subscribed(t) && t in s.subs
    ensures Exact(GetSubscribeCallback(Serve(s), s.wire[0], |Serve(s).active|).0)
  {
    HeadAll(s.wire);
  }

  lemma ExactDeliver(s: State)
    requires Inv(s) && Exact(s) && s.wire != []
    ensures Exact(Deliver(s).0)
  {
    match s.wire[0] {
      case Subscribed(t) =>
        FrontIsClear(s);
        SubscribedOk(s);
        ExactSubscribed(s, t);
      case Unsubscribed(t, _) =>
        FrontIsClear(s);
        ExactEndTopic(s, t);
      case Answer(_) => HeadAll(s.wire);
    }
  }

  lemma {:induction false} ExactUnsubscribe(s: State, pattern: bool, names: seq<string>)
    requires Exact(s)
    ensures Exact(UnsubscribeAll(s, pattern, names))
    decreases |names|
  {
    if names == [] {
    } else {
      var d := UnsubscribeOne(s, Topic(pattern, names[0]));
      SnocAll(s.wire, d.wire[|s.wire|]);
      assert Exact(d);
      ExactUnsubscribe(d, pattern, names[1..]);
    }
  }

  ghost predicate PlainRun(es: seq<Event>) {
    es == [] ||
    var init, e := es[..|es| - 1], es[|es| - 1];
    PlainRun(init) && (e.Subscribe? ==> Plain(Run(init), e.pattern, e.names))
  }

  /** If every SUBSCRIBE is plain, the counts are exact all along. */
  lemma {:induction false} ExactRun(es: seq<Event>)
    requires PlainRun(es)
    ensures Exact(Run(es))
  {
    if es == [] {
    } else {
      var init, e := es[..|es| - 1], es[|es| - 1];
      var s := Run(init);
      ExactRun(init);
      RunOk(init);
      match e {
        case Subscribe(pattern, names, id) => SubscribeExactIff(s, pattern, names, id, 1);
        case Unsubscribe(pattern, names) => ExactUnsubscribe(s, pattern, names);
        case Other(id) => SnocAll(s.wire, Answer(id));
        case Receive =>
          if s.wire != [] {
            ExactDeliver(s);
          }
      }
    }
  }

  /** Then an unsubscription that no subscription follows removes its topic. */
  lemma PlainRunEndsTopics(es: seq<Event>)
    requires PlainRun(es) && Run(es).wire != [] && Run(es).wire[0].Unsubscribed?
    requires Subs(Run(es).wire, Run(es).wire[0].t) == 0
    ensures Run(es).wire[0].t !in Deliver(Run(es)).0.subs
  {
    ExactRun(es);
    RunOk(es);
    FrontIsClear(Run(es));
  }

  // ---------------------------------------------------------------- a count that stays too high

  const A: Topic := Topic(false, "a")
  const B: Topic := Topic(false, "b")

  /** A subscribed context with no other command under way. */
  function InContext(subs: map<Topic, Callback>, active: set<Topic>, wire: seq<Reply>): State {
    State(subs, 0, true, [], [], active, wire)
  }

  /** SUBSCRIBE a, and SUBSCRIBE a b before the first is confirmed. */
  lemma TwoSubscribes()
    ensures Apply(Apply(CONNECTED, Subscribe(false, ["a"], 1)), Subscribe(false, ["a", "b"], 2))
            == InContext(map[A := Callback(2, 2, false), B := Callback(2, 2, false)], {},
                         [Subscribed(A), Subscribed(A), Subscribed(B)])
  {
    var s := InContext(map[A := Callback(1, 1, false)], {}, [Subscribed(A)]);
    var names := ["a", "b"];
    assert ["a"][1..] == [] && names[1..] == ["b"] && ["b"][1..] == [];
    assert Apply(CONNECTED, Subscribe(false, ["a"], 1)) == s;
    var d := SubscribeOne(s, A, 2, 2);
    assert SubscribeAll(s, false, names, 2, 1) == SubscribeAll(d, false, ["b"], 2, 2);
    assert SubscribeAll(d, false, ["b"], 2, 2) == SubscribeOne(d, B, 2, 2);
  }

  /** All three are confirmed. */
  lemma ThreeConfirmations(s: State)
    requires s == InContext(map[A := Callback(2, 2, false), B := Callback(2, 2, false)], {},
                            [Subscribed(A), Subscribed(A), Subscribed(B)])
    ensures Apply(Apply(Apply(s, Receive), Receive), Receive)
            == InContext(map[A := Callback(2, 0, false), B := Callback(2, 1, false)], {A, B}, [])
  {
    var s1 := Apply(s, Receive);
    assert s1 == InContext(map[A := Callback(2, 1, false), B := Callback(2, 2, false)], {A}, [Subscribed(A), Subscribed(B)]);
    var s2 := Apply(s1, Receive);
    assert s2 == InContext(map[A := Callback(2, 0, false), B := Callback(2, 2, false)], {A}, [Subscribed(B)]);
  }

  /** UNSUBSCRIBE a b, and both are confirmed. */
  lemma BothUnsubscribed(s: State)
    requires s == InContext(map[A := Callback(2, 0, false), B := Callback(2, 1, false)], {A, B}, [])
    ensures Apply(Apply(Apply(s, Unsubscribe(false, ["a", "b"])), Receive), Receive)
            == InContext(map[B := Callback(2, 1, true)], {}, [])
  {
    assert ["a", "b"][1..] == ["b"] && ["b"][1..] == [];
    var d := UnsubscribeOne(s, A);
    assert UnsubscribeAll(s, false, ["a", "b"]) == UnsubscribeAll(d, false, ["b"]) == UnsubscribeOne(d, B);
    var s1 := Apply(s, Unsubscribe(false, ["a", "b"]));
    assert s1 == InContext(map[A := Callback(2, 0, true), B := Callback(2, 1, true)], {A, B},
                           [Unsubscribed(A, false), Unsubscribed(B, false)]);
    var s2 := Apply(s1, Receive);
    assert s2 == InContext(map[B := Callback(2, 1, true)], {B}, [Unsubscribed(B, false)]);
  }

  lemma RunNext(es: seq<Event>, e: Event)
    ensures Run(es + [e]) == Apply(Run(es), e)
  {
    assert (es + [e])[..|es|] == es;
  }

  const PIPELINED: seq<Event> :=
    [Subscribe(false, ["a"], 1)] + [Subscribe(false, ["a", "b"], 2)] + [Receive] + [Receive] + [Receive]
    + [Unsubscribe(false, ["a", "b"])] + [Receive] + [Receive]

  /** In this run the count of b is too high for it to go: the server has no subscription left
      and nothing to answer, but the context stays subscribed. */
  lemma StaysSubscribed()
    ensures var s := Run(PIPELINED);
            s.wire == [] && s.active == {} && s.subscribed && B in s.subs && s.subs[B].pendingSubs > Subs(s.wire, B)
  {
    var e1, e2, e6 := Subscribe(false, ["a"], 1), Subscribe(false, ["a", "b"], 2), Unsubscribe(false, ["a", "b"]);
    RunNext([], e1);
    assert [] + [e1] == [e1];
    RunNext([e1], e2);
    RunNext([e1] + [e2], Receive);
    RunNext([e1] + [e2] + [Receive], Receive);
    RunNext([e1] + [e2] + [Receive] + [Receive], Receive);
    RunNext([e1] + [e2] + [Receive] + [Receive] + [Receive], e6);
    RunNext([e1] + [e2] + [Receive] + [Receive] + [Receive] + [e6], Receive);
    RunNext([e1] + [e2] + [Receive] + [Receive] + [Receive] + [e6] + [Receive], Receive);
    TwoSubscribes();
    ThreeConfirmations(Run([e1] + [e2]));
    BothUnsubscribed(Run([e1] + [e2] + [Receive] + [Receive] + [Receive]));
  }
}
