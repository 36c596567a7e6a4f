/** The operations of `async.c` in their own form: methods that update the context, each proved
    to do what the functions of `PubSub` say. What the server does is ghost. */
module AsyncContext {
  import opened PubSub

  class Context {
    var subs: map<Topic, Callback>
    var pendingUnsubs: int
    var subscribed: bool
    var replies: seq<nat>
    var subReplies: seq<nat>
    ghost var active: set<Topic>
    ghost var wire: seq<Reply>

    ghost function View(): State
      reads this
    {
      State(subs, pendingUnsubs, subscribed, replies, subReplies, active, wire)
    }

    constructor ()
      ensures View() == CONNECTED && Inv(View())
    {
      subs, pendingUnsubs, subscribed, replies, subReplies, active, wire := map[], 0, false, [], [], {}, [];
    }

    /** The part of `__redisAsyncCommand` for SUBSCRIBE and PSUBSCRIBE. */
    method SubscribeCommand(pattern: bool, names: seq<string>, id: nat)
      requires Inv(View()) && names != []
      modifies this
      ensures View() == Apply(old(View()), Subscribe(pattern, names, id)) && Inv(View())
    {
      StepOk(View(), Subscribe(pattern, names, id));
      ghost var all := SubscribeAll(View(), pattern, names, id, 1);
      var cb := Callback(id, 1, false);
      var i := 0;
      while i < |names|
        invariant i <= |names| && cb.id == id && !cb.unsubscribeSent && (i > 0 ==> subscribed)
        invariant SubscribeAll(View(), pattern, names[i..], id, cb.pendingSubs) == all
      {
        ghost var before := View();
        var t := Topic(pattern, names[i]);
        if t in subs {
          cb := cb.(pendingSubs := subs[t].pendingSubs + 1);
        }
        subscribed := true;
        subs := subs[t := cb];
        wire := wire + [Subscribed(t)];
        assert View() == SubscribeOne(before, t, id, cb.pendingSubs);
        assert names[i..][1..] == names[i + 1..];
        i := i + 1;
      }
    }

    /** The part for UNSUBSCRIBE and PUNSUBSCRIBE of given names; false for REDIS_ERR. */
    method UnsubscribeCommand(pattern: bool, names: seq<string>) returns (ok: bool)
      requires Inv(View()) && names != []
      modifies this
      ensures ok == old(subscribed)
      ensures View() == Apply(old(View()), Unsubscribe(pattern, names)) && Inv(View())
    {
      StepOk(View(), Unsubscribe(pattern, names));
      if !subscribed {
        return false;
      }
      ghost var all := UnsubscribeAll(View(), pattern, names);
      var i := 0;
      while i < |names|
        invariant i <= |names| && UnsubscribeAll(View(), pattern, names[i..]) == all
      {
        ghost var before := View();
        var t := Topic(pattern, names[i]);
        if t in subs && !subs[t].unsubscribeSent {
          subs := subs[t := subs[t].(unsubscribeSent := true)];
          wire := wire + [Unsubscribed(t, false)];
        } else {
          pendingUnsubs := pendingUnsubs + 1;
          wire := wire + [Unsubscribed(t, true)];
        }
        assert View() == UnsubscribeOne(before, t);
        assert names[i..][1..] == names[i + 1..];
        i := i + 1;
      }
      return true;
    }

    /** The part for every other command. */
    method Command(id: nat)
      requires Inv(View())
      modifies this
      ensures View() == Apply(old(View()), Other(id)) && Inv(View())
    {
      StepOk(View(), Other(id));
      if subscribed {
        subReplies := subReplies + [id];
      } else {
        replies := replies + [id];
      }
      wire := wire + [Answer(id)];
    }

    /** `__redisGetSubscribeCallback` */
    method GetCallback(r: Reply, integer: nat) returns (cb: Outcome)
      modifies this
      ensures (View(), cb) == GetSubscribeCallback(old(View()), r, integer)
    {
      match r {
        case Subscribed(t) =>
          if t !in subs {
            return AssertionFails;
          }
          cb := Runs(subs[t].id);
          subs := subs[t := subs[t].(pendingSubs := subs[t].pendingSubs - 1)];
        case Unsubscribed(t, _) =>
          if t in subs {
            cb := Runs(subs[t].id);
            if subs[t].pendingSubs == 0 {
              subs := subs - {t};
            }
          } else {
            cb := Ignored;
            pendingUnsubs := pendingUnsubs - 1;
          }
          if integer == 0 && subs == map[] && pendingUnsubs == 0 {
            MoveReplies();
          }
        case Answer(_) =>
          if subReplies == [] {
            return Ignored;
          }
          cb := Runs(subReplies[0]);
          subReplies := subReplies[1..];
      }
    }

    /** Unsets the flag and moves the callbacks of other commands, one by one. */
    method MoveReplies()
      modifies `subscribed, `replies, `subReplies
      ensures View() == Leave(old(View()))
    {
      subscribed := false;
      while subReplies != []
        invariant !subscribed && replies + subReplies == old(replies + subReplies)
        decreases |subReplies|
      {
        replies, subReplies := replies + [subReplies[0]], subReplies[1..];
      }
      assert replies + [] == replies;
    }

    /** One round of `redisProcessCallbacks`, on the next answer of the server. */
    method ProcessReply(r: Reply, integer: nat) returns (cb: Outcome)
      requires Inv(View()) && wire != [] && r == wire[0] && integer == |Serve(View()).active|
      modifies this
      ensures View() == Apply(old(View()), Receive) && Inv(View())
      ensures cb == Deliver(old(View())).1 && cb != AssertionFails
    {
      DeliverOk(View());
      ghost var served := Serve(View());
      active, wire := served.active, served.wire;
      if replies != [] {
        cb := Runs(replies[0]);
        replies := replies[1..];
      } else if !subscribed {
        cb := AssertionFails;
      } else {
        cb := GetCallback(r, integer);
      }
    }
  }
}
