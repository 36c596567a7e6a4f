/** The asynchronous neverbleed pipeline of `src/main.c`: a write queue and a read queue per
    thread, one socket, at most 200 transactions awaiting their response, and a daemon that
    answers in order. The socket is part of the state: what the daemon has received and not
    answered, and what it has answered and nobody has read. */
module Neverbleed {

  const MAX_IN_FLIGHT: nat := 200

  datatype Transaction = Transaction(id: nat, responseless: bool)

  /** `arrived` says whether the request being written has reached the daemon, `looping` whether
      the thread is in the loop of `async_nb_read_ready`; `delivered` lists which response each
      transaction was given. */
  datatype Pipeline = Pipeline(
    toWrite: seq<Transaction>,
    toRead: seq<Transaction>,
    writing: bool,
    arrived: bool,
    reading: bool,
    looping: bool,
    atDaemon: seq<Transaction>,
    responses: seq<nat>,
    delivered: seq<(nat, nat)>)

  const EMPTY: Pipeline := Pipeline([], [], false, false, false, false, [], [], [])

  datatype Event =
    | Submit(t: Transaction)   // a transaction, also from a callback inside the reading loop
    | Arrive                   // the request being written reaches the daemon
    | WriteComplete            // async_nb_on_write_complete
    | Answer                   // the daemon takes its next request
    | ReadReady                // async_nb_read_ready, up to its first callback
    | ReadMore                 // the socket polls readable: up to the next callback
    | ReadDone                 // the end of the loop, and what follows it

  predicate Enabled(p: Pipeline, e: Event) {
    match e
    case Submit(_) => true
    case Arrive => p.writing && !p.arrived
    case WriteComplete => !p.looping && p.writing && p.arrived
    case Answer => p.atDaemon != []
    case ReadReady => !p.looping && p.reading && p.responses != []
    case ReadMore => p.looping && p.toRead != [] && p.responses != []
    case ReadDone => p.looping && (p.toRead == [] || p.responses == [])
  }

  /** `async_nb_submit_write_pending` */
  function SubmitPending(p: Pipeline): Pipeline {
    if MAX_IN_FLIGHT <= |p.toRead| then p
    else if !p.writing && p.toWrite != [] then p.(writing := true, arrived := false)
    else p
  }

  /** The transaction at the front of the read queue takes the first response. */
  function Deliver(p: Pipeline): Pipeline
    requires p.toRead != [] && p.responses != []
  {
    p.(toRead := p.toRead[1..], responses := p.responses[1..],
       delivered := p.delivered + [(p.toRead[0].id, p.responses[0])], looping := true)
  }

  function Apply(p: Pipeline, e: Event): Pipeline
    requires Enabled(p, e) && Inv(p)
  {
    match e
    case Submit(t) => SubmitPending(p.(toWrite := p.toWrite + [t]))
    case Arrive => p.(arrived := true, atDaemon := p.atDaemon + [p.toWrite[0]])
    case WriteComplete =>
      var t := p.toWrite[0];
      var q := p.(toWrite := p.toWrite[1..], writing := false, arrived := false);
      SubmitPending(if t.responseless then q else q.(toRead := q.toRead + [t], reading := true))
    case Answer =>
      var t := p.atDaemon[0];
      p.(atDaemon := p.atDaemon[1..], responses := if t.responseless then p.responses else p.responses + [t.id])
    case ReadReady => Deliver(p)
    case ReadMore => Deliver(p)
    case ReadDone =>
      var q := SubmitPending(p).(looping := false);
      if q.toRead == [] then q.(reading := false) else q
  }

  // ---------------------------------------------------------------- invariant

  /** Ids of the transactions that will get a response, in order. */
  function Expecting(ts: seq<Transaction>): seq<nat> {
    if ts == [] then []
    else (if ts[0].responseless then [] else [ts[0].id]) + Expecting(ts[1..])
  }

  predicate InFlight(p: Pipeline) {
    p.writing && p.toWrite != [] && !p.toWrite[0].responseless
  }

  function Awaited(p: Pipeline): seq<nat> {
    Expecting(p.toRead) + if InFlight(p) && p.arrived then [p.toWrite[0].id] else []
  }

  ghost predicate Inv(p: Pipeline) {
    && (p.writing ==> p.toWrite != [])
    && (p.arrived ==> p.writing)
    && |p.toRead| + (if InFlight(p) then 1 else 0) <= MAX_IN_FLIGHT
    && (!p.looping && p.toWrite != [] ==> p.writing || |p.toRead| == MAX_IN_FLIGHT)
    && (if p.looping then p.reading else p.reading <==> p.toRead != [])
    && (forall i :: 0 <= i < |p.toRead| ==> !p.toRead[i].responseless)
    && Awaited(p) == p.responses + Expecting(p.atDaemon)
    && (forall i :: 0 <= i < |p.delivered| ==> p.delivered[i].0 == p.delivered[i].1)
  }

  lemma {:induction false} ExpectingSnoc(ts: seq<Transaction>, t: Transaction)
    ensures Expecting(ts + [t]) == Expecting(ts) + if t.responseless then [] else [t.id]
  {
    if ts == [] {
      assert ts + [t] == [t] && Expecting([t][1..]) == [];
    } else {
      assert (ts + [t])[1..] == ts[1..] + [t];
      ExpectingSnoc(ts[1..], t);
    }
  }

  /** Delivery gives the transaction its own response and leaves the rest waiting. */
  lemma DeliverKeepsInv(p: Pipeline)
    requires Inv(p) && p.toRead != [] && p.responses != [] && p.reading
    ensures Inv(Deliver(p))
  {
    var q, tail := Deliver(p), Expecting(p.atDaemon);
    assert Awaited(p) == [p.toRead[0].id] + Awaited(q);
    assert p.responses + tail == [p.responses[0]] + (q.responses + tail);
    assert p.responses[0] == (p.responses + tail)[0] == p.toRead[0].id;
    assert q.responses + tail == (p.responses + tail)[1..] == Awaited(p)[1..] == Awaited(q);
  }

  lemma SubmitKeepsInv(p: Pipeline)
    requires Inv(p.(toWrite := if p.writing || p.looping || |p.toRead| == MAX_IN_FLIGHT then p.toWrite else []))
    requires p.writing ==> p.toWrite != []
    ensures Inv(SubmitPending(p))
  {
    assert Awaited(p) == Awaited(SubmitPending(p));
  }

  lemma ArriveKeepsInv(p: Pipeline)
    requires Inv(p) && Enabled(p, Arrive)
    ensures Inv(Apply(p, Arrive))
  {
    var t, q := p.toWrite[0], Apply(p, Arrive);
    ExpectingSnoc(p.atDaemon, t);
    assert Awaited(p) == Expecting(p.toRead);
    assert Awaited(q) == Awaited(p) + if t.responseless then [] else [t.id];
    assert q.responses + Expecting(q.atDaemon) ==
           p.responses + Expecting(p.atDaemon) + if t.responseless then [] else [t.id];
  }

  lemma WriteCompleteKeepsInv(p: Pipeline)
    requires Inv(p) && Enabled(p, WriteComplete)
    ensures Inv(Apply(p, WriteComplete))
  {
    var t := p.toWrite[0];
    ExpectingSnoc(p.toRead, t);
    var q0 := p.(toWrite := p.toWrite[1..], writing := false, arrived := false);
    var q := if t.responseless then q0 else q0.(toRead := q0.toRead + [t], reading := true);
    assert Awaited(q) == Expecting(q.toRead) == Awaited(p);
    SubmitKeepsInv(q);
  }

  lemma AnswerKeepsInv(p: Pipeline)
    requires Inv(p) && Enabled(p, Answer)
    ensures Inv(Apply(p, Answer))
  {
    var t, rest := p.atDaemon[0], Expecting(p.atDaemon[1..]);
    var id := if t.responseless then [] else [t.id];
    assert p.responses + (id + rest) == (p.responses + id) + rest;
    assert Apply(p, Answer).responses == p.responses + id;
    assert Awaited(Apply(p, Answer)) == Awaited(p);
  }

  lemma ReadDoneKeepsInv(p: Pipeline)
    requires Inv(p) && Enabled(p, ReadDone)
    ensures Inv(Apply(p, ReadDone))
  {
    assert Awaited(Apply(p, ReadDone)) == Awaited(p);
  }

  lemma StepKeepsInv(p: Pipeline, e: Event)
    requires Inv(p) && Enabled(p, e)
    ensures Inv(Apply(p, e))
  {
    match e {
      case Submit(t) =>
        var q := p.(toWrite := p.toWrite + [t]);
        assert Awaited(q) == Awaited(p);
        assert Awaited(SubmitPending(q)) == Awaited(q);
      case Arrive => ArriveKeepsInv(p);
      case WriteComplete => WriteCompleteKeepsInv(p);
      case Answer => AnswerKeepsInv(p);
      case ReadReady => DeliverKeepsInv(p);
      case ReadMore => DeliverKeepsInv(p);
      case ReadDone => ReadDoneKeepsInv(p);
    }
  }

  // ---------------------------------------------------------------- runs

  function Run(es: seq<Event>): (p: Pipeline)
    ensures Inv(p)
  {
    if es == [] then EMPTY
    else
      var p, e := Run(es[..|es| - 1]), es[|es| - 1];
      if Enabled(p, e) then
        StepKeepsInv(p, e);
        Apply(p, e)
      else p
  }

  /** In every run, with callbacks that submit from inside the reading loop: at most 200
      transactions await a response, and every response went to the transaction that asked for
      it. Out of the loop, queued requests are never left behind unless that limit is reached,
      and the socket is read exactly while something is awaited. */
  lemma PipelineSafe(es: seq<Event>)
    ensures var p := Run(es);
            && |p.toRead| + (if InFlight(p) then 1 else 0) <= 200
            && (!p.looping && p.toWrite != [] ==> p.writing || |p.toRead| == 200)
            && (!p.looping ==> (p.reading <==> p.toRead != []))
            && (forall i :: 0 <= i < |p.delivered| ==> p.delivered[i].0 == p.delivered[i].1)
  {
    assert Inv(Run(es));
  }

  /** Nothing is lost or answered twice: submitted ids that want a response are, in order,
      those delivered, those awaited, and those still to be written. */
  function Asked(es: seq<Event>): seq<nat> {
    if es == [] then []
    else
      var e := es[|es| - 1];
      Asked(es[..|es| - 1]) + if e.Submit? && !e.t.responseless then [e.t.id] else []
  }

  function DeliveredIds(d: seq<(nat, nat)>): (r: seq<nat>)
    ensures |r| == |d| && forall i :: 0 <= i < |d| ==> r[i] == d[i].0
  {
    seq(|d|, i requires 0 <= i < |d| => d[i].0)
  }

  function Account(p: Pipeline): seq<nat> {
    DeliveredIds(p.delivered) + Expecting(p.toRead) + Expecting(p.toWrite)
  }

  lemma DeliverKeepsAccount(p: Pipeline)
    requires p.toRead != [] && p.responses != [] && !p.toRead[0].responseless
    ensures Account(Deliver(p)) == Account(p)
  {
    var q := Deliver(p);
    assert DeliveredIds(q.delivered) == DeliveredIds(p.delivered) + [p.toRead[0].id];
  }

  lemma WriteCompleteAccounts(p: Pipeline)
    requires Inv(p) && Enabled(p, WriteComplete)
    ensures Account(Apply(p, WriteComplete)) == Account(p)
  {
    var t := p.toWrite[0];
    var done, now, rest := DeliveredIds(p.delivered), Expecting(p.toRead), Expecting(p.toWrite[1..]);
    var id := if t.responseless then [] else [t.id];
    ExpectingSnoc(p.toRead, t);
    assert done + now + (id + rest) == done + (now + id) + rest;
  }

  lemma PendingAccounts(p: Pipeline)
    ensures Account(SubmitPending(p)) == Account(p)
  {
  }

  lemma SubmitAccounts(p: Pipeline, t: Transaction)
    ensures Account(SubmitPending(p.(toWrite := p.toWrite + [t]))) ==
            Account(p) + if t.responseless then [] else [t.id]
  {
    ExpectingSnoc(p.toWrite, t);
    PendingAccounts(p.(toWrite := p.toWrite + [t]));
  }

  lemma StepAccounts(p: Pipeline, e: Event)
    requires Inv(p) && Enabled(p, e)
    ensures Account(Apply(p, e)) == Account(p) + if e.Submit? && !e.t.responseless then [e.t.id] else []
  {
    match e {
      case Submit(t) => SubmitAccounts(p, t);
      case Arrive =>
      case WriteComplete => WriteCompleteAccounts(p);
      case Answer =>
      case ReadReady => DeliverKeepsAccount(p);
      case ReadMore => DeliverKeepsAccount(p);
      case ReadDone => PendingAccounts(p);
    }
  }

  lemma {:induction false} Conserved(es: seq<Event>)
    ensures Account(Run(es)) == Asked(es)
  {
    if es == [] {
    } else {
      var p, e := Run(es[..|es| - 1]), es[|es| - 1];
      Conserved(es[..|es| - 1]);
      if Enabled(p, e) {
        StepAccounts(p, e);
      }
    }
  }

  // ---------------------------------------------------------------- the callbacks themselves

  class AsyncNb {
    var writeQueue: seq<Transaction>
    var readQueue: seq<Transaction>
    var writing: bool
    var reading: bool
    ghost var looping: bool
    var arrived: bool
    var atDaemon: seq<Transaction>
    var responses: seq<nat>
    var delivered: seq<(nat, nat)>

    ghost function View(): Pipeline
      reads this
    {
      Pipeline(writeQueue, readQueue, writing, arrived, reading, looping, atDaemon, responses, delivered)
    }

    constructor ()
      ensures View() == EMPTY
    {
      writeQueue, readQueue, writing, reading, arrived := [], [], false, false, false;
      looping := false;
      atDaemon, responses, delivered := [], [], [];
    }

    method SubmitWritePending()
      modifies `writing, `arrived
      ensures View() == SubmitPending(old(View()))
      ensures writing <==> old(writing) || (writeQueue != [] && |readQueue| < MAX_IN_FLIGHT)
    {
      if |readQueue| >= MAX_IN_FLIGHT {
        return;
      }
      if !writing && |writeQueue| != 0 {
        writing := true;
        arrived := false;
      }
    }

    method DoTransaction(t: Transaction)
      requires Inv(View())
      modifies this
      ensures View() == Apply(old(View()), Submit(t)) && Inv(View())
    {
      StepKeepsInv(View(), Submit(t));
      writeQueue := writeQueue + [t];
      SubmitWritePending();
    }

    method OnWriteComplete()
      requires Inv(View()) && Enabled(View(), WriteComplete)
      modifies this
      ensures View() == Apply(old(View()), WriteComplete) && Inv(View())
    {
      StepKeepsInv(View(), WriteComplete);
      var t := writeQueue[0];
      writeQueue := writeQueue[1..];
      writing, arrived := false, false;
      if !t.responseless {
        readQueue := readQueue + [t];
        if !reading {
          reading := true;
        }
      }
      SubmitWritePending();
    }

    /** One response: read, and handed to the transaction at the front. */
    method ReadOne() returns (t: Transaction)
      requires Inv(View()) && readQueue != [] && responses != [] && reading
      modifies this`readQueue, this`responses, this`delivered, this`looping
      ensures View() == Deliver(old(View())) && Inv(View()) && t == old(readQueue[0])
    {
      DeliverKeepsInv(View());
      t := readQueue[0];
      readQueue := readQueue[1..];
      delivered := delivered + [(t.id, responses[0])];
      responses := responses[1..];
      looping := true;
    }

    /** The callback of a transaction, which may submit others. */
    method OnReadComplete(submitted: seq<Transaction>)
      requires Inv(View()) && looping
      modifies this
      ensures Inv(View()) && looping && responses == old(responses) && delivered == old(delivered) && readQueue == old(readQueue)
      ensures atDaemon == old(atDaemon) && writeQueue == old(writeQueue) + submitted
    {
      for i := 0 to |submitted|
        invariant Inv(View()) && looping && responses == old(responses) && delivered == old(delivered) && readQueue == old(readQueue)
        invariant atDaemon == old(atDaemon) && writeQueue == old(writeQueue) + submitted[..i]
      {
        DoTransaction(submitted[i]);
      }
    }

    /** Reads as long as the socket polls readable. What the callback of a transaction submits
        is a parameter. Afterwards every response at hand has been read, and no request is left
        behind. */
    method OnReadReady(callback: Transaction -> seq<Transaction>)
      requires Inv(View()) && Enabled(View(), ReadReady)
      modifies this
      ensures Inv(View()) && !looping && (readQueue == [] || responses == [])
      ensures old(delivered) < delivered && old(delivered + Pairs(readQueue, responses)) == delivered + Pairs(readQueue, responses)
    {
      var first := true;
      while |readQueue| > 0 && (first || |responses| > 0)
        invariant Inv(View()) && reading && (looping <==> !first) && (first ==> responses != [] && readQueue != [])
        invariant old(delivered) <= delivered && (!first ==> old(delivered) < delivered)
        invariant delivered + Pairs(readQueue, responses) == old(delivered + Pairs(readQueue, responses))
        decreases |readQueue|
      {
        ghost var before := View();
        var t := ReadOne();
        PairsFirst(before.delivered, before.toRead, before.responses);
        OnReadComplete(callback(t));
        first := false;
      }
      Leave();
    }

    method Leave()
      requires Inv(View()) && Enabled(View(), ReadDone)
      modifies `writing, `arrived, `reading, `looping
      ensures View() == Apply(old(View()), ReadDone) && Inv(View())
    {
      StepKeepsInv(View(), ReadDone);
      Resume();
      if |readQueue| == 0 {
        reading := false;
      }
      looping := false;
    }

    /** Resumes writing if there is room. */
    method Resume()
      modifies `writing, `arrived
      ensures View() == SubmitPending(old(View()))
    {
      if |readQueue| < MAX_IN_FLIGHT {
        SubmitWritePending();
      }
    }
  }

  /** The responses at hand, each with the transaction that will be given it. */
  function Pairs(ts: seq<Transaction>, responses: seq<nat>): seq<(nat, nat)> {
    if ts == [] || responses == [] then [] else [(ts[0].id, responses[0])] + Pairs(ts[1..], responses[1..])
  }

  lemma PairsFirst(done: seq<(nat, nat)>, ts: seq<Transaction>, responses: seq<nat>)
    requires ts != [] && responses != []
    ensures done + Pairs(ts, responses) == done + [(ts[0].id, responses[0])] + Pairs(ts[1..], responses[1..])
  {
  }
}
