/** Connection admission in `src/main.c`: the atomic counters `_num_connections` and
    `_num_quic_connections`, the listeners that each thread stops at the limit, and the
    notifications that make threads look again.

    Every atomic access and every message sent is a step of its own, so that a run is any
    interleaving of the threads. Event loops, clients, tokens and timers appear only as the
    choice of which step comes next. */
module Admission {

  /** What `h2o_http3_server_accept` returns. */
  datatype Conn = Null | DecryptionFailed | Closed | Live

  /** What follows the decrement of the second counter: the end of an attempt, the return from
      an accept during which the connection was destroyed, or the end of a connection. */
  datatype Resume = Return | ReturnClosed | Destroyed

  /** What remains to be done after the threads have been notified. */
  datatype After = Nothing | QuicToo(resume: Resume)

  /** Where a thread is. */
  datatype Pc =
    | Recheck                              // top of the main loop
    | Decided(below: bool)                 // inside update_listener_state, counter read
    | Waiting                              // blocked in h2o_evloop_run
    | Dispatching                          // running callbacks; will come back to the top
    | Tcp(pass: bool)                      // on_accept, counter incremented
    | Quic(pass: bool)                     // on_http3_accept, first counter incremented
    | QuicBoth(pass: bool)                 // on_http3_accept, both counters incremented
    | QuicReturned(conn: Conn)             // h2o_http3_server_accept has returned
    | QuicExit(conn: Conn)                 // label Exit
    | QuicExitNoDecrements                 // label ExitNoDecrements
    | Notifying(next: nat, after: After)   // inside notify_all_threads
    | ReleaseQuic(resume: Resume)          // about to decrement the second counter

  /** How often the last attempt of a thread has incremented and decremented each counter, and
      whether it has become a connection. */
  datatype Tally = Tally(up: nat, down: nat, quicUp: nat, quicDown: nat, lives: bool)

  datatype Thread = Thread(pc: Pc, listening: bool, notified: bool, tally: Tally)

  /** `tcp` and `h3` count the connections that exist. */
  datatype State = State(count: int, quic: int, tcp: nat, h3: nat, threads: seq<Thread>)

  datatype Limits = Limits(connections: nat, quicConnections: nat)

  datatype Event =
    | ReadCount            // update_listener_state reads the counter
    | SetListeners         // ... and starts or stops the listeners
    | Wake                 // h2o_evloop_run leaves its wait
    | Receive              // on_server_notification
    | Finish               // h2o_evloop_run returns
    | TcpAttempt
    | TcpDone(accepted: bool)
    | TcpClose
    | QuicAttempt
    | QuicSecond
    | QuicRefuse           // the second counter is at its limit
    | QuicNoToken          // the token is invalid, or a retry is sent
    | QuicAccept(conn: Conn)
    | QuicBranch           // the tests behind h2o_http3_server_accept
    | QuicAtExit           // the test at label Exit
    | QuicLeave
    | QuicClose            // on_http3_conn_destroy of a connection
    | SendOne              // one message of notify_all_threads
    | DecrementQuic

  predicate Enabled(s: State, i: nat, e: Event) {
    i < |s.threads| &&
    var t := s.threads[i];
    match e
    case ReadCount => t.pc.Recheck?
    case SetListeners => t.pc.Decided?
    case Wake => t.pc.Waiting?
    case Receive => t.pc.Dispatching? && t.notified
    case Finish => t.pc.Dispatching?
    case TcpAttempt => t.pc.Dispatching? && t.listening
    case TcpDone(_) => t.pc.Tcp?
    case TcpClose => t.pc.Dispatching? && 0 < s.tcp
    case QuicAttempt => t.pc.Dispatching?
    case QuicSecond => t.pc.Quic?
    case QuicRefuse => t.pc.QuicBoth? && !t.pc.pass
    case QuicNoToken => t.pc.QuicBoth? && t.pc.pass
    case QuicAccept(_) => t.pc.QuicBoth? && t.pc.pass
    case QuicBranch => t.pc.QuicReturned?
    case QuicAtExit => t.pc.QuicExit?
    case QuicLeave => t.pc.QuicExitNoDecrements?
    case QuicClose => t.pc.Dispatching? && 0 < s.h3
    case SendOne => t.pc.Notifying?
    case DecrementQuic => t.pc.ReleaseQuic?
  }

  function At(s: State, i: nat, pc: Pc): State
    requires i < |s.threads|
  {
    s.(threads := s.threads[i := s.threads[i].(pc := pc)])
  }

  function Continue(after: After): Pc {
    if after.QuicToo? then ReleaseQuic(after.resume) else Dispatching
  }

  /** `num_connections(-1)`: whoever brings the counter down from the limit wakes everyone. */
  function Decrement(l: Limits, s: State, i: nat, after: After): State
    requires i < |s.threads|
  {
    At(s.(count := s.count - 1), i, if s.count == l.connections then Notifying(0, after) else Continue(after))
  }

  function WithTally(s: State, i: nat, tally: Tally): State
    requires i < |s.threads|
  {
    s.(threads := s.threads[i := s.threads[i].(tally := tally)])
  }

  /** A decrement on behalf of the attempt. */
  function GiveBack(l: Limits, s: State, i: nat, after: After): State
    requires i < |s.threads|
  {
    var t := s.threads[i].tally;
    Decrement(l, WithTally(s, i, t.(down := t.down + 1)), i, after)
  }

  /** The decrement of the second counter, and what follows it. */
  function GiveBackQuic(s: State, i: nat, resume: Resume): State
    requires i < |s.threads|
  {
    var t := s.threads[i].tally;
    var r := At(s.(quic := s.quic - 1), i, if resume.ReturnClosed? then QuicReturned(Closed) else Dispatching);
    if resume.Destroyed? then r else WithTally(r, i, t.(quicDown := t.quicDown + 1))
  }

  function Apply(l: Limits, s: State, i: nat, e: Event): State
    requires Enabled(s, i, e)
  {
    var t := s.threads[i];
    match e
    case ReadCount => At(s, i, Decided(s.count < l.connections))
    case SetListeners => s.(threads := s.threads[i := t.(pc := Waiting, listening := t.pc.below)])
    case Wake => At(s, i, Dispatching)
    case Receive => s.(threads := s.threads[i := t.(notified := false)])
    case Finish => At(s, i, Recheck)
    case TcpAttempt => WithTally(At(s.(count := s.count + 1), i, Tcp(s.count < l.connections)), i, Tally(1, 0, 0, 0, false))
    case TcpDone(accepted) =>
      if t.pc.pass && accepted then WithTally(At(s.(tcp := s.tcp + 1), i, Dispatching), i, t.tally.(lives := true))
      else GiveBack(l, s, i, Nothing)
    case TcpClose => Decrement(l, s.(tcp := s.tcp - 1), i, Nothing)
    case QuicAttempt => WithTally(At(s.(count := s.count + 1), i, Quic(s.count < l.connections)), i, Tally(1, 0, 0, 0, false))
    case QuicSecond =>
      if t.pc.pass then
        WithTally(At(s.(quic := s.quic + 1), i, QuicBoth(s.quic < l.quicConnections)), i, t.tally.(quicUp := t.tally.quicUp + 1))
      else GiveBack(l, s, i, Nothing)
    case QuicRefuse => GiveBack(l, s, i, QuicToo(Return))
    case QuicNoToken => At(s, i, QuicExit(Null))
    case QuicAccept(conn) =>
      match conn {
        case Live => WithTally(At(s.(h3 := s.h3 + 1), i, QuicReturned(Live)), i, t.tally.(lives := true))
        case Closed => GiveBack(l, s, i, QuicToo(ReturnClosed))
        case _ => At(s, i, QuicReturned(conn))
      }
    case QuicBranch =>
      At(s, i, if t.pc.conn.Closed? then QuicExitNoDecrements else QuicExit(t.pc.conn))
    case QuicAtExit =>
      if t.pc.conn.Null? || t.pc.conn.DecryptionFailed? then GiveBack(l, s, i, QuicToo(Return))
      else At(s, i, QuicExitNoDecrements)
    case QuicLeave => At(s, i, Dispatching)
    case QuicClose => Decrement(l, s.(h3 := s.h3 - 1), i, QuicToo(Destroyed))
    case SendOne =>
      if t.pc.next < |s.threads| then
        var told := s.(threads := s.threads[t.pc.next := s.threads[t.pc.next].(notified := true)]);
        At(told, i, Notifying(t.pc.next + 1, t.pc.after))
      else At(s, i, Continue(t.pc.after))
    case DecrementQuic => GiveBackQuic(s, i, t.pc.resume)
  }

  const IDLE: Thread := Thread(Recheck, false, false, Tally(0, 0, 0, 0, false))

  function Init(n: nat): State {
    State(0, 0, 0, 0, seq(n, _ => IDLE))
  }

  /** The state after a schedule; a step that is not enabled does not happen. */
  function Run(l: Limits, n: nat, es: seq<(nat, Event)>): State {
    if es == [] then Init(n)
    else
      var s, (i, e) := Run(l, n, es[..|es| - 1]), es[|es| - 1];
      if Enabled(s, i, e) then Apply(l, s, i, e) else s
  }

  // ---------------------------------------------------------------- counting

  function Holds(t: Thread): nat {
    if t.pc.Tcp? || t.pc.Quic? || t.pc.QuicBoth? || Unreturned(t.pc) then 1 else 0
  }

  /** No connection has come of the accept, and the counters have not been decremented. */
  predicate Unreturned(pc: Pc) {
    (pc.QuicReturned? || pc.QuicExit?) && (pc.conn.Null? || pc.conn.DecryptionFailed?)
  }

  function HoldsQuic(t: Thread): nat {
    if t.pc.QuicBoth? || Unreturned(t.pc) || t.pc.ReleaseQuic? || (t.pc.Notifying? && t.pc.after.QuicToo?) then 1 else 0
  }

  /** Attempts that may still become a connection. */
  function Passed(t: Thread): nat {
    if ((t.pc.Tcp? || t.pc.Quic?) && t.pc.pass) || t.pc.QuicBoth? then 1 else 0
  }

  function PassedQuic(t: Thread): nat {
    if t.pc.QuicBoth? && t.pc.pass then 1 else 0
  }

  function Sum(ts: seq<Thread>, f: Thread -> nat): nat {
    if ts == [] then 0 else f(ts[0]) + Sum(ts[1..], f)
  }

  lemma {:induction false} SumUpdate(ts: seq<Thread>, i: nat, t: Thread, f: Thread -> nat)
    requires i < |ts|
    ensures Sum(ts[i := t], f) + f(ts[i]) == Sum(ts, f) + f(t)
  {
    if i == 0 {
      assert ts[i := t][1..] == ts[1..];
    } else {
      assert ts[i := t][1..] == ts[1..][i - 1 := t];
      SumUpdate(ts[1..], i - 1, t, f);
    }
  }

  lemma {:induction false} SumBelow(ts: seq<Thread>, f: Thread -> nat, g: Thread -> nat)
    requires forall t :: f(t) <= g(t)
    ensures Sum(ts, f) <= Sum(ts, g)
  {
    if ts == [] {
    } else {
      SumBelow(ts[1..], f, g);
    }
  }

  ghost predicate Counted(s: State) {
    && s.count == s.tcp + s.h3 + Sum(s.threads, Holds)
    && s.quic == s.h3 + Sum(s.threads, HoldsQuic)
  }

  ghost predicate WithinLimits(l: Limits, s: State) {
    && s.tcp + s.h3 + Sum(s.threads, Passed) <= l.connections
    && s.h3 + Sum(s.threads, PassedQuic) <= l.quicConnections
  }

  /** What a step does to its own thread and to the counters. */
  lemma OwnStep(l: Limits, s: State, i: nat, e: Event)
    requires Enabled(s, i, e)
    ensures var r := Apply(l, s, i, e);
            var t, u := s.threads[i], r.threads[i];
            && r.count - r.tcp - r.h3 - Holds(u) == s.count - s.tcp - s.h3 - Holds(t)
            && r.quic - r.h3 - HoldsQuic(u) == s.quic - s.h3 - HoldsQuic(t)
            && (r.tcp + r.h3 + Passed(u) <= s.tcp + s.h3 + Passed(t)
                || (r.tcp + r.h3 + Passed(u) == s.tcp + s.h3 + Passed(t) + 1 && s.count < l.connections))
            && (r.h3 + PassedQuic(u) <= s.h3 + PassedQuic(t)
                || (r.h3 + PassedQuic(u) == s.h3 + PassedQuic(t) + 1 && s.quic < l.quicConnections))
  {
  }

  /** A step changes the sums by what it changes in its own thread: flags do not count. */
  lemma SumStep(l: Limits, s: State, i: nat, e: Event, f: Thread -> nat)
    requires Enabled(s, i, e)
    requires forall t: Thread, b: bool :: f(t.(notified := b)) == f(t)
    ensures var r := Apply(l, s, i, e);
            Sum(r.threads, f) + f(s.threads[i]) == Sum(s.threads, f) + f(r.threads[i])
  {
    var r, t := Apply(l, s, i, e), s.threads[i];
    if e.SendOne? && t.pc.next < |s.threads| {
      var k := t.pc.next;
      var told := s.threads[k := s.threads[k].(notified := true)];
      SumUpdate(s.threads, k, s.threads[k].(notified := true), f);
      SumUpdate(told, i, r.threads[i], f);
      assert r.threads == told[i := r.threads[i]];
      assert f(told[i]) == f(s.threads[i]);
    } else {
      SumUpdate(s.threads, i, r.threads[i], f);
      assert r.threads == s.threads[i := r.threads[i]];
    }
  }

  lemma CountingStep(l: Limits, s: State, i: nat, e: Event)
    requires Enabled(s, i, e) && Counted(s) && WithinLimits(l, s)
    ensures Counted(Apply(l, s, i, e)) && WithinLimits(l, Apply(l, s, i, e))
  {
    SumBelow(s.threads, Passed, Holds);
    SumBelow(s.threads, PassedQuic, HoldsQuic);
    OwnStep(l, s, i, e);
    SumStep(l, s, i, e, Holds);
    SumStep(l, s, i, e, HoldsQuic);
    SumStep(l, s, i, e, Passed);
    SumStep(l, s, i, e, PassedQuic);
  }

  lemma {:induction false} InitSums(n: nat, f: Thread -> nat)
    requires f(IDLE) == 0
    ensures Sum(Init(n).threads, f) == 0
  {
    if n == 0 {
    } else {
      InitSums(n - 1, f);
      assert Init(n).threads[1..] == Init(n - 1).threads;
    }
  }

  lemma {:induction false} Counting(l: Limits, n: nat, es: seq<(nat, Event)>)
    ensures |Run(l, n, es).threads| == n
    ensures Counted(Run(l, n, es)) && WithinLimits(l, Run(l, n, es))
  {
    if es == [] {
      InitSums(n, Holds);
      InitSums(n, HoldsQuic);
      InitSums(n, Passed);
      InitSums(n, PassedQuic);
    } else {
      Counting(l, n, es[..|es| - 1]);
      var s := Run(l, n, es[..|es| - 1]);
      var (i, e) := es[|es| - 1];
      if Enabled(s, i, e) {
        CountingStep(l, s, i, e);
      }
    }
  }

  lemma {:induction false} SumAtMostLength(ts: seq<Thread>)
    ensures Sum(ts, Holds) <= |ts|
  {
    if ts == [] {
    } else {
      SumAtMostLength(ts[1..]);
    }
  }

  /** In every interleaving: the counters are the connections plus the attempts that hold a
      count, connections never exceed the limits, and the counter itself exceeds its limit by
      at most one per thread. */
  lemma AdmissionSafe(l: Limits, n: nat, es: seq<(nat, Event)>)
    ensures var s := Run(l, n, es);
            && s.count == s.tcp + s.h3 + Sum(s.threads, Holds)
            && s.quic == s.h3 + Sum(s.threads, HoldsQuic)
            && s.tcp + s.h3 <= l.connections
            && s.h3 <= l.quicConnections
            && 0 <= s.count <= l.connections + n
  {
    Counting(l, n, es);
    SumAtMostLength(Run(l, n, es).threads);
  }

  lemma RunNext(l: Limits, n: nat, es: seq<(nat, Event)>, i: nat, e: Event)
    ensures var s := Run(l, n, es);
            Run(l, n, es + [(i, e)]) == if Enabled(s, i, e) then Apply(l, s, i, e) else s
  {
    assert (es + [(i, e)])[..|es|] == es;
  }

  lemma Overwritten<T>(ts: seq<T>, i: nat, a: T, b: T)
    requires i < |ts|
    ensures ts[i := a][i := b] == ts[i := b]
  {
  }

  lemma WakeOne(l: Limits, n: nat, es: seq<(nat, Event)>, i: nat) returns (fs: seq<(nat, Event)>)
    requires i < |Run(l, n, es).threads| && Run(l, n, es).threads[i].pc.Recheck?
    ensures var s := Run(l, n, es);
            var t := s.threads[i];
            Run(l, n, fs) == s.(threads := s.threads[i := t.(pc := Dispatching, listening := s.count < l.connections)])
  {
    var s := Run(l, n, es);
    var t := s.threads[i];
    var a := t.(pc := Decided(s.count < l.connections));
    var b := t.(pc := Waiting, listening := s.count < l.connections);
    var c := t.(pc := Dispatching, listening := s.count < l.connections);
    RunNext(l, n, es, i, ReadCount);
    fs := es + [(i, ReadCount)];
    assert Run(l, n, fs) == s.(threads := s.threads[i := a]);
    RunNext(l, n, fs, i, SetListeners);
    Overwritten(s.threads, i, a, b);
    fs := fs + [(i, SetListeners)];
    assert Run(l, n, fs) == s.(threads := s.threads[i := b]);
    RunNext(l, n, fs, i, Wake);
    Overwritten(s.threads, i, b, c);
    fs := fs + [(i, Wake)];
  }

  lemma {:induction false} WakeFirst(l: Limits, n: nat, k: nat) returns (es: seq<(nat, Event)>)
    requires k <= n
    ensures var s := Run(l, n, es);
            && |s.threads| == n && s.count == s.tcp == s.h3 == 0
            && (forall i :: 0 <= i < k ==> s.threads[i].pc.Dispatching? && (s.threads[i].listening <==> 0 < l.connections))
            && forall i :: k <= i < n ==> s.threads[i] == IDLE
  {
    if k == 0 {
      es := [];
    } else {
      es := WakeFirst(l, n, k - 1);
      es := WakeOne(l, n, es, k - 1);
    }
  }

  /** One thread accepts k connections. */
  lemma {:induction false} FillUp(l: Limits, n: nat, k: nat) returns (es: seq<(nat, Event)>)
    requires k <= l.connections && 1 <= n
    ensures var s := Run(l, n, es);
            && |s.threads| == n && s.count == s.tcp == k && s.h3 == 0
            && (forall i :: 0 <= i < n ==> s.threads[i].pc.Dispatching?)
            && (0 < l.connections ==> s.threads[0].listening)
  {
    if k == 0 {
      es := WakeFirst(l, n, n);
    } else {
      es := FillUp(l, n, k - 1);
      RunNext(l, n, es, 0, TcpAttempt);
      es := es + [(0, TcpAttempt)];
      RunNext(l, n, es, 0, TcpDone(true));
      es := es + [(0, TcpDone(true))];
    }
  }

  /** The bound of `AdmissionSafe` is reached: with all connections there, the first k threads
      are in an attempt that will give up, and each of them is counted. */
  lemma {:induction false} CounterExceeds(l: Limits, n: nat, k: nat) returns (es: seq<(nat, Event)>)
    requires k <= n && 1 <= n
    ensures var s := Run(l, n, es);
            && s.count == l.connections + k && s.tcp == l.connections && |s.threads| == n
            && (forall i :: 0 <= i < k ==> s.threads[i].pc == Quic(false))
            && forall i :: k <= i < n ==> s.threads[i].pc.Dispatching?
  {
    if k == 0 {
      es := FillUp(l, n, l.connections);
    } else {
      es := CounterExceeds(l, n, k - 1);
      RunNext(l, n, es, k - 1, QuicAttempt);
      es := es + [(k - 1, QuicAttempt)];
    }
  }

  // ---------------------------------------------------------------- every attempt pays back

  /** An attempt that is over: each counter it incremented it has decremented, once, or it has
      become a connection and has decremented nothing. */
  predicate Settled(t: Tally) {
    && t.up <= 1 && t.quicUp <= 1
    && if t.lives then t.up == 1 && t.down == 0 && t.quicDown == 0 else t.down == t.up && t.quicDown == t.quicUp
  }

  /** What an attempt has done when it is at a place of the code. */
  predicate Balanced(t: Thread) {
    var held := Tally(1, 0, 1, 0, false);
    match t.pc
    case Tcp(_) => t.tally == Tally(1, 0, 0, 0, false)
    case Quic(_) => t.tally == Tally(1, 0, 0, 0, false)
    case QuicBoth(_) => t.tally == held
    case QuicReturned(conn) => if Unreturned(t.pc) then t.tally == held else Settled(t.tally)
    case QuicExit(conn) => if Unreturned(t.pc) then t.tally == held else Settled(t.tally)
    case Notifying(_, QuicToo(resume)) => if resume.Destroyed? then Settled(t.tally) else t.tally == held.(down := 1)
    case ReleaseQuic(resume) => if resume.Destroyed? then Settled(t.tally) else t.tally == held.(down := 1)
    case _ => Settled(t.tally)
  }

  predicate InAccept(e: Event) {
    e.QuicRefuse? || e.QuicNoToken? || e.QuicAccept? || e.QuicBranch? || e.QuicAtExit? || e.QuicLeave? || e.DecrementQuic?
  }

  lemma BalancedCall(l: Limits, s: State, i: nat, e: Event)
    requires Enabled(s, i, e) && Balanced(s.threads[i]) && e.QuicAccept?
    ensures i < |Apply(l, s, i, e).threads| && Balanced(Apply(l, s, i, e).threads[i])
  {
  }

  lemma BalancedExit(l: Limits, s: State, i: nat, e: Event)
    requires Enabled(s, i, e) && Balanced(s.threads[i]) && (e.QuicBranch? || e.QuicAtExit? || e.QuicLeave?)
    ensures i < |Apply(l, s, i, e).threads| && Balanced(Apply(l, s, i, e).threads[i])
  {
  }

  lemma BalancedRefusal(l: Limits, s: State, i: nat, e: Event)
    requires Enabled(s, i, e) && Balanced(s.threads[i]) && (e.QuicRefuse? || e.QuicNoToken? || e.DecrementQuic?)
    ensures i < |Apply(l, s, i, e).threads| && Balanced(Apply(l, s, i, e).threads[i])
  {
  }

  lemma BalancedAccept(l: Limits, s: State, i: nat, e: Event)
    requires Enabled(s, i, e) && Balanced(s.threads[i]) && InAccept(e)
    ensures i < |Apply(l, s, i, e).threads| && Balanced(Apply(l, s, i, e).threads[i])
  {
    if e.QuicAccept? {
      BalancedCall(l, s, i, e);
    } else if e.QuicBranch? || e.QuicAtExit? || e.QuicLeave? {
      BalancedExit(l, s, i, e);
    } else {
      BalancedRefusal(l, s, i, e);
    }
  }

  lemma BalancedElsewhere(l: Limits, s: State, i: nat, e: Event)
    requires Enabled(s, i, e) && Balanced(s.threads[i]) && !InAccept(e)
    ensures i < |Apply(l, s, i, e).threads| && Balanced(Apply(l, s, i, e).threads[i])
  {
  }

  lemma BalancedOwn(l: Limits, s: State, i: nat, e: Event)
    requires Enabled(s, i, e) && Balanced(s.threads[i])
    ensures i < |Apply(l, s, i, e).threads| && Balanced(Apply(l, s, i, e).threads[i])
  {
    if InAccept(e) {
      BalancedAccept(l, s, i, e);
    } else {
      BalancedElsewhere(l, s, i, e);
    }
  }

  lemma OthersKept(l: Limits, s: State, i: nat, e: Event, k: nat)
    requires Enabled(s, i, e) && k < |s.threads| && k != i
    ensures k < |Apply(l, s, i, e).threads|
    ensures var t := Apply(l, s, i, e).threads[k]; t.pc == s.threads[k].pc && t.tally == s.threads[k].tally
  {
  }

  lemma BalancedStep(l: Limits, s: State, i: nat, e: Event, k: nat)
    requires Enabled(s, i, e) && k < |s.threads| && Balanced(s.threads[i]) && Balanced(s.threads[k])
    ensures k < |Apply(l, s, i, e).threads| && Balanced(Apply(l, s, i, e).threads[k])
  {
    if k == i {
      BalancedOwn(l, s, i, e);
    } else {
      OthersKept(l, s, i, e, k);
    }
  }

  lemma {:induction false} AlwaysBalanced(l: Limits, n: nat, es: seq<(nat, Event)>)
    ensures forall k :: 0 <= k < |Run(l, n, es).threads| ==> Balanced(Run(l, n, es).threads[k])
  {
    if es == [] {
    } else {
      AlwaysBalanced(l, n, es[..|es| - 1]);
      var s := Run(l, n, es[..|es| - 1]);
      var (i, e) := es[|es| - 1];
      if Enabled(s, i, e) {
        assert |Apply(l, s, i, e).threads| == |s.threads|;
        forall k | 0 <= k < |s.threads|
          ensures Balanced(Apply(l, s, i, e).threads[k])
        {
          BalancedStep(l, s, i, e, k);
        }
      }
    }
  }

  /** In every interleaving, on every path through the accepts, an attempt that is over has
      decremented each counter as often as it incremented it, or has become a connection. */
  lemma AttemptsPayBack(l: Limits, n: nat, es: seq<(nat, Event)>, k: nat)
    requires k < |Run(l, n, es).threads| && Run(l, n, es).threads[k].pc.Dispatching?
    ensures Settled(Run(l, n, es).threads[k].tally)
  {
    AlwaysBalanced(l, n, es);
  }

  // ---------------------------------------------------------------- no lost wake-up

  /** Stopped, or bound to stop without looking again. */
  predicate Parked(t: Thread) {
    (t.pc.Decided? && !t.pc.below) || (t.pc.Waiting? && !t.listening)
  }

  /** Some thread has yet to send its message to thread k. */
  ghost predicate WillBeTold(s: State, k: nat) {
    exists j :: 0 <= j < |s.threads| && Telling(s.threads[j], k)
  }

  predicate Telling(t: Thread, k: nat) {
    t.pc.Notifying? && t.pc.next <= k
  }

  ghost predicate Awake(l: Limits, s: State) {
    forall k :: 0 <= k < |s.threads| && Parked(s.threads[k]) && s.count < l.connections ==>
                  s.threads[k].notified || WillBeTold(s, k)
  }

  lemma AwakeStep(l: Limits, s: State, i: nat, e: Event)
    requires Enabled(s, i, e) && Awake(l, s)
    ensures Awake(l, Apply(l, s, i, e))
  {
    var r := Apply(l, s, i, e);
    forall k | 0 <= k < |r.threads| && Parked(r.threads[k]) && r.count < l.connections
      ensures r.threads[k].notified || WillBeTold(r, k)
    {
      if s.count < l.connections && !(k == i && e.ReadCount?) {
        assert Parked(s.threads[k]);
        StillTold(l, s, i, e, k);
      } else {
        assert k != i;
        assert Telling(r.threads[i], k);
      }
    }
  }

  lemma StillTold(l: Limits, s: State, i: nat, e: Event, k: nat)
    requires Enabled(s, i, e) && k < |s.threads| && Parked(s.threads[k]) && Parked(Apply(l, s, i, e).threads[k])
    requires s.threads[k].notified || WillBeTold(s, k)
    ensures Apply(l, s, i, e).threads[k].notified || WillBeTold(Apply(l, s, i, e), k)
  {
    var r := Apply(l, s, i, e);
    if !s.threads[k].notified {
      var j :| 0 <= j < |s.threads| && Telling(s.threads[j], k);
      if j != i || s.threads[j].pc.next != k {
        assert Telling(r.threads[j], k);
      }
    }
  }

  lemma {:induction false} AlwaysAwake(l: Limits, n: nat, es: seq<(nat, Event)>)
    ensures Awake(l, Run(l, n, es))
  {
    if es == [] {
    } else {
      AlwaysAwake(l, n, es[..|es| - 1]);
      var s := Run(l, n, es[..|es| - 1]);
      var (i, e) := es[|es| - 1];
      if Enabled(s, i, e) {
        AwakeStep(l, s, i, e);
      }
    }
  }

  /** In every interleaving, a thread that has stopped its listeners and waits while there
      is room either has a message waiting, or some thread is between its decrement and its
      message to it. Once no thread is notifying, the message is there. */
  lemma NoLostWakeUp(l: Limits, n: nat, es: seq<(nat, Event)>, k: nat)
    requires k < |Run(l, n, es).threads|
    requires var s := Run(l, n, es);
             s.threads[k].pc.Waiting? && !s.threads[k].listening && s.count < l.connections
    ensures var s := Run(l, n, es);
            && (s.threads[k].notified || exists j :: 0 <= j < |s.threads| && Telling(s.threads[j], k))
            && ((forall j :: 0 <= j < |s.threads| ==> !s.threads[j].pc.Notifying?) ==> s.threads[k].notified)
  {
    AlwaysAwake(l, n, es);
    var s := Run(l, n, es);
    if !s.threads[k].notified {
      assert WillBeTold(s, k);
    }
  }
}
