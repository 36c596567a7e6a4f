/** What holds over every run of an HTTP/1 connection. */
module Http1Runs {
  import opened Basics
  import opened Http1

  /** The connection after a sequence of events; one that is not enabled does not happen. */
  ghost function Run(p: Parser, es: seq<Event>): (c: Conn)
    requires ParserOk(p)
    ensures Inv(p, c)
  {
    if es == [] then ACCEPTED
    else
      var c, e := Run(p, es[..|es| - 1]), es[|es| - 1];
      if Enabled(c, e) then
        StepOk(p, c, e);
        Apply(p, c, e)
      else c
  }

  // ---------------------------------------------------------------- octets

  /** However the incoming octets were split into reads, each of them is in the head or the
      body of exactly one request, in order, or still waiting; finished requests have exactly
      their declared body, the handler was given exactly that body, and told once that it
      was over. */
  lemma EveryOctetAccounted(p: Parser, es: seq<Event>)
    requires ParserOk(p)
    ensures var c := Run(p, es);
            && c.stream == Flat(c.finished) + Current(c) + c.input
            && (forall i :: 0 <= i < |c.finished| ==> Good(p, c.finished[i]))
            && (!c.closed && c.up.reader.Some? ==> c.input == [] && |c.now.body| < c.up.reader.value)
  {
    assert Inv(p, Run(p, es));
  }

  lemma {:induction false} FlatCons(x: Exchange, xs: seq<Exchange>)
    ensures Flat([x] + xs) == x.head + x.body + Flat(xs)
  {
    if xs == [] {
      assert [x] + xs == [x] && [x][..0] == [];
    } else {
      var k := |xs| - 1;
      FlatCons(x, xs[..k]);
      assert ([x] + xs)[..|xs|] == [x] + xs[..k];
    }
  }

  lemma FirstExchange(p: Parser, x: Exchange, y: Exchange, a: Octets, b: Octets)
    requires ParserOk(p) && Good(p, x) && Good(p, y)
    requires x.head + x.body + a == y.head + y.body + b
    ensures x == y && a == b
  {
    var s := x.head + x.body + a;
    assert s == x.head + (x.body + a) && s == y.head + (y.body + b);
    assert p(x.head + (x.body + a)) == p(x.head) && p(y.head + (y.body + b)) == p(y.head);
    assert s[..|x.head|] == x.head && s[..|y.head|] == y.head;
    assert s[|x.head|..] == x.body + a && s[|x.head|..] == y.body + b;
    assert (x.body + a)[..|x.body|] == x.body && (y.body + b)[..|y.body|] == y.body;
    assert (x.body + a)[|x.body|..] == a && (y.body + b)[|y.body|..] == b;
  }

  lemma Peel(xs: seq<Exchange>, a: Octets)
    requires xs != []
    ensures Flat(xs) + a == xs[0].head + xs[0].body + (Flat(xs[1..]) + a)
  {
    assert xs == [xs[0]] + xs[1..];
    FlatCons(xs[0], xs[1..]);
    Associative(xs[0].head + xs[0].body, Flat(xs[1..]), a);
  }

  ghost predicate AllGood(p: Parser, xs: seq<Exchange>) {
    forall i :: 0 <= i < |xs| ==> Good(p, xs[i])
  }

  lemma GoodTail(p: Parser, xs: seq<Exchange>)
    requires AllGood(p, xs) && xs != []
    ensures Good(p, xs[0]) && AllGood(p, xs[1..])
  {
  }

  lemma SameFirst(p: Parser, xs: seq<Exchange>, ys: seq<Exchange>, a: Octets, b: Octets)
    requires ParserOk(p) && xs != [] && ys != [] && Good(p, xs[0]) && Good(p, ys[0])
    requires Flat(xs) + a == Flat(ys) + b
    ensures xs[0] == ys[0] && Flat(xs[1..]) + a == Flat(ys[1..]) + b
  {
    Peel(xs, a);
    Peel(ys, b);
    FirstExchange(p, xs[0], ys[0], Flat(xs[1..]) + a, Flat(ys[1..]) + b);
  }

  lemma ConsPrefix(x: Exchange, xs: seq<Exchange>, ys: seq<Exchange>)
    requires xs <= ys || ys <= xs
    ensures [x] + xs <= [x] + ys || [x] + ys <= [x] + xs
  {
  }

  lemma {:induction false} SegmentationUnique(p: Parser, xs: seq<Exchange>, ys: seq<Exchange>, a: Octets, b: Octets)
    requires ParserOk(p)
    requires AllGood(p, xs) && AllGood(p, ys)
    requires Flat(xs) + a == Flat(ys) + b
    ensures xs <= ys || ys <= xs
    decreases |xs|
  {
    if xs == [] || ys == [] {
    } else {
      GoodTail(p, xs);
      GoodTail(p, ys);
      SameFirst(p, xs, ys, a, b);
      SegmentationUnique(p, xs[1..], ys[1..], a, b);
      ConsPrefix(xs[0], xs[1..], ys[1..]);
      assert xs == [xs[0]] + xs[1..] && ys == [ys[0]] + ys[1..];
    }
  }

  lemma StreamTail(c: Conn, more: Octets)
    requires c.stream == Flat(c.finished) + Current(c) + c.input
    ensures c.stream + more == Flat(c.finished) + (Current(c) + c.input + more)
  {
    Associative(Flat(c.finished), Current(c), c.input);
    Associative(Flat(c.finished), Current(c) + c.input, more);
  }

  /** Two connections that received the same octets, split and interleaved with handlers and
      writes in any way, served the same requests as far as both got. */
  lemma SplitIndependent(p: Parser, es: seq<Event>, fs: seq<Event>, more: Octets)
    requires ParserOk(p)
    ensures Run(p, es).stream + more == Run(p, fs).stream ==>
              Run(p, es).finished <= Run(p, fs).finished || Run(p, fs).finished <= Run(p, es).finished
  {
    var c, d := Run(p, es), Run(p, fs);
    StreamTail(c, more);
    StreamTail(d, []);
    assert d.stream + [] == d.stream;
    if c.stream + more == d.stream {
      SegmentationUnique(p, c.finished, d.finished, Current(c) + c.input + more, Current(d) + d.input + []);
    }
  }

  /** No whole request is among the octets. */
  ghost predicate NothingWhole(p: Parser, rest: Octets) {
    forall x: Exchange :: Good(p, x) ==> !(x.head + x.body <= rest)
  }

  lemma SomethingWhole(p: Parser, xs: seq<Exchange>, a: Octets)
    requires xs != [] && Good(p, xs[0])
    ensures !NothingWhole(p, Flat(xs) + a)
  {
    Peel(xs, a);
    assert xs[0].head + xs[0].body <= Flat(xs) + a;
  }

  lemma {:induction false} FlatAppend(xs: seq<Exchange>, ys: seq<Exchange>)
    ensures Flat(xs + ys) == Flat(xs) + Flat(ys)
  {
    if ys == [] {
      assert xs + ys == xs;
    } else {
      var init, last := ys[..|ys| - 1], ys[|ys| - 1];
      FlatAppend(xs, init);
      assert (xs + ys)[..|xs + ys| - 1] == xs + init;
      Associative(Flat(xs), Flat(init), last.head + last.body);
    }
  }

  lemma SameTail(a: Octets, b: Octets, c: Octets)
    requires a + b == a + c
    ensures b == c
  {
    assert (a + b)[|a|..] == b && (a + c)[|a|..] == c;
  }

  lemma NoneMissing(p: Parser, xs: seq<Exchange>, ys: seq<Exchange>, a: Octets, b: Octets)
    requires xs <= ys && AllGood(p, ys) && Flat(xs) + a == Flat(ys) + b && NothingWhole(p, a)
    ensures xs == ys
  {
    var zs := ys[|xs|..];
    if zs != [] {
      assert ys == xs + zs;
      FlatAppend(xs, zs);
      Associative(Flat(xs), Flat(zs), b);
      SameTail(Flat(xs), a, Flat(zs) + b);
      SomethingWhole(p, zs, b);
    }
  }

  lemma SameSegments(p: Parser, xs: seq<Exchange>, ys: seq<Exchange>, a: Octets, b: Octets)
    requires ParserOk(p) && AllGood(p, xs) && AllGood(p, ys)
    requires Flat(xs) + a == Flat(ys) + b && NothingWhole(p, a) && NothingWhole(p, b)
    ensures xs == ys
  {
    SegmentationUnique(p, xs, ys, a, b);
    if xs <= ys {
      NoneMissing(p, xs, ys, a, b);
    } else {
      NoneMissing(p, ys, xs, b, a);
    }
  }

  /** Octets that no finished request has. */
  function Rest(c: Conn): Octets {
    Current(c) + c.input
  }

  /** Two connections that received the same octets and have finished every request that is
      whole among them served exactly the same requests, and are left with the same octets. */
  lemma SameRequests(p: Parser, es: seq<Event>, fs: seq<Event>)
    requires ParserOk(p) && Run(p, es).stream == Run(p, fs).stream
    requires NothingWhole(p, Rest(Run(p, es))) && NothingWhole(p, Rest(Run(p, fs)))
    ensures Run(p, es).finished == Run(p, fs).finished && Rest(Run(p, es)) == Rest(Run(p, fs))
  {
    var c, d := Run(p, es), Run(p, fs);
    Associative(Flat(c.finished), Current(c), c.input);
    Associative(Flat(d.finished), Current(d), d.input);
    SameSegments(p, c.finished, d.finished, Rest(c), Rest(d));
    SameTail(Flat(c.finished), Rest(c), Rest(d));
  }

  /** A connection that waits for the rest of a body, or has nothing left, has finished every
      whole request. */
  lemma WaitingHasNothingWhole(p: Parser, es: seq<Event>)
    requires ParserOk(p)
    requires var c := Run(p, es); Rest(c) == [] || (!c.closed && c.up.reader.Some?)
    ensures NothingWhole(p, Rest(Run(p, es)))
  {
    var c := Run(p, es);
    forall x: Exchange | Good(p, x)
      ensures !(x.head + x.body <= Rest(c))
    {
      if Rest(c) != [] && x.head + x.body <= Rest(c) {
        assert Rest(c) == c.now.head + c.now.body;
        WholeBody(p, x, Rest(c)[|x.head + x.body|..], c.now.head, c.now.body);
      }
    }
  }

  lemma WholeBody(p: Parser, x: Exchange, more: Octets, head: Octets, body: Octets)
    requires ParserOk(p) && Good(p, x) && x.head + x.body + more == head + body
    requires p(head).Head? && p(head).len == |head| && p(head).entity.Length?
    ensures p(head).entity.n <= |body|
  {
    assert head + body == x.head + (x.body + more);
    assert p(x.head + (x.body + more)) == p(x.head) && p(head + body) == p(head);
  }

  // ---------------------------------------------------------------- cleanup

  predicate SameHistory(c: Conn, d: Conn) {
    d.finished == c.finished && d.index == c.index && d.stream == c.stream
  }

  lemma HeadKeepsHistory(c: Conn, b: Octets, h: Head)
    requires h.Head? && h.len <= |b| <= |c.input|
    ensures SameHistory(c, HandleHead(c, b, h))
  {
    var d := WithHead(c, b, h);
    ErrorSameRecord(d);
    if h.entity.Length? {
      FragmentKeepsHistory(StartBody(d, h.entity.n), true);
    }
  }

  lemma IncomingKeepsHistory(p: Parser, c: Conn)
    requires ParserOk(p)
    ensures SameHistory(c, HandleIncomingRequest(p, c))
  {
    var b := ParseLimit(c.input);
    if p(b).Head? {
      HeadKeepsHistory(c, b, p(b));
    } else {
      ErrorSameRecord(c);
    }
  }

  lemma FragmentKeepsHistory(c: Conn, ok: bool)
    requires c.up.reader.Some? && c.up.received <= c.up.reader.value
    ensures SameHistory(c, Fragment(c, ok))
    ensures Fragment(c, ok).down.ostream.Done? ==> c.down.ostream.Done?
  {
    var t := TakeFragment(c, Amount(c));
    CallSameRecord(t, Complete(c));
    CallKeepsResponse(t, Complete(c));
    ErrorSameRecord(CallWriteReq(t, Complete(c)));
  }

  lemma CallKeepsResponse(c: Conn, complete: bool)
    ensures CallWriteReq(c, complete).down == c.down
  {
  }

  /** The event that completes the later of the two halves of the current request. */
  predicate Ends(c: Conn, e: Event) {
    match e
    case Sent(_) => !c.up.proceedReq
    case Read(data, ok) =>
      c.down.ostream.Done? && c.up.reader.Some? && c.up.reader.value <= c.up.received + |c.input| + |data|
    case _ => false
  }

  /** A step cleans up at most one request. It does so only when it completes the later of
      "the response has been sent" and "the body has been read", and no request that has
      both behind it is left waiting: it has been cleaned up, or the connection closed. */
  ghost predicate CleansAtTheLater(p: Parser, c: Conn, e: Event, d: Conn)
    requires c.unconsumed <= |c.input|
  {
    && (d.finished == c.finished || |d.finished| == |c.finished| + 1)
    && d.index == |d.finished| + 1
    && (d.finished != c.finished ==> Ends(c, e) && c.persistent && d.finished[|c.finished|].head == c.now.head)
    && (!d.closed ==> !(d.down.ostream.Done? && !d.up.proceedReq))
    && (Ends(c, e) && d.finished == c.finished ==> d.closed)
    && (d.closed <==> Closes(p, c, e))
  }

  /** What follows the request is no request, but the CRLF that some clients send behind a body. */
  predicate BareCrlf(p: Parser, rest: Octets) {
    var b := ParseLimit(rest);
    rest != [] && p(b).Broken? && |b| <= 4 && CrlfOnly(b)
  }

  /** A connection closes when it is dropped, when its body is given up after the response, at a
      bare line end instead of a head, and at the end of a request that is not persistent or is
      followed by such a line end. */
  predicate Closes(p: Parser, c: Conn, e: Event)
    requires c.unconsumed <= |c.input|
  {
    match e
    case Read(data, ok) =>
      if c.up.reader.None? then BareCrlf(p, c.input + data)
      else ClosesInBody(p, c, c.input + data, ok)
    case Sent(error) => !c.up.proceedReq && (!c.persistent || error || BareCrlf(p, c.input[c.unconsumed..]))
    case Proceed(error) => error && c.down.ostream.Done?
    case Drop => true
    case _ => false
  }

  predicate ClosesInBody(p: Parser, c: Conn, input: Octets, ok: bool)
    requires c.up.reader.Some?
  {
    && c.down.ostream.Done?
    && ((c.up.writeReq.Handler? && !ok)
        || (c.up.reader.value <= c.up.received + |input| && (!c.persistent || BareCrlf(p, Behind(c, input)))))
  }

  /** What is behind the body in the octets at hand. */
  function Behind(c: Conn, input: Octets): Octets
    requires c.up.reader.Some?
  {
    if c.up.received <= c.up.reader.value <= c.up.received + |input| then input[c.up.reader.value - c.up.received..] else []
  }

  lemma StepCleans(p: Parser, c: Conn, e: Event)
    requires ParserOk(p) && Inv(p, c) && Enabled(c, e)
    ensures CleansAtTheLater(p, c, e, Apply(p, c, e))
  {
    StepOk(p, c, e);
    match e {
      case Read(data, ok) => ReadCleans(p, c, data, ok);
      case Sent(error) => SentCleans(p, c, error);
      case _ =>
    }
    ClosesIff(p, c, e);
  }

  lemma FragmentStaysOpen(c: Conn, ok: bool)
    requires c.up.reader.Some? && c.up.received <= c.up.reader.value && !c.closed
    ensures Fragment(c, ok).closed ==> c.down.ostream.Done? && !ok && c.up.writeReq.Handler?
  {
    var t := TakeFragment(c, Amount(c));
    CallSameRecord(t, Complete(c));
    CallKeepsResponse(t, Complete(c));
  }

  lemma IncomingCloses(p: Parser, c: Conn)
    requires ParserOk(p) && !c.closed && c.input != [] && c.down == NO_RESPONSE
    ensures HandleIncomingRequest(p, c).closed <==> BareCrlf(p, c.input)
  {
    var b := ParseLimit(c.input);
    if p(b).Head? && p(b).entity.Length? {
      var d := WithHead(c, b, p(b));
      FragmentStaysOpen(StartBody(d, p(b).entity.n), true);
    }
  }

  lemma CleanupCloses(p: Parser, c: Conn)
    requires ParserOk(p) && c.unconsumed <= |c.input| && !c.closed
    requires c.persistent ==> !c.up.proceedReq && c.up.reader.None?
    ensures Cleanup(p, c).closed <==> !c.persistent || BareCrlf(p, c.input[c.unconsumed..])
  {
    if c.persistent && InitRequest(c).input != [] {
      IncomingCloses(p, InitRequest(c));
    }
  }

  lemma WholeCloses(p: Parser, c: Conn, ok: bool)
    requires ParserOk(p) && !c.closed && c.unconsumed == 0 && c.up.reader.Some? && c.up.received <= c.up.reader.value
    requires Complete(c) && !(c.up.writeReq.Handler? && !ok)
    ensures HandleEntity(p, c, ok).closed <==>
            c.down.ostream.Done? && (!c.persistent || BareCrlf(p, Behind(c, c.input)))
  {
    var f := Fragment(c, ok);
    FragmentStaysOpen(c, ok);
    FragmentKeepsNow(c, ok);
    FragmentLeaves(c, ok);
    if f.down.ostream.Done? {
      CleanupCloses(p, f);
    }
  }

  lemma EntityCloses(p: Parser, c: Conn, ok: bool)
    requires ParserOk(p) && !c.closed && c.unconsumed == 0 && c.up.reader.Some? && c.up.received <= c.up.reader.value
    requires c.input != []
    ensures HandleEntity(p, c, ok).closed <==> ClosesInBody(p, c, c.input, ok)
  {
    FragmentStaysOpen(c, ok);
    FragmentKeepsNow(c, ok);
    if Complete(c) && !(c.up.writeReq.Handler? && !ok) {
      WholeCloses(p, c, ok);
    }
  }

  /** A completed body leaves what is behind it. */
  lemma FragmentLeaves(c: Conn, ok: bool)
    requires c.up.reader.Some? && c.up.received <= c.up.reader.value && Complete(c)
    requires !(c.up.writeReq.Handler? && !ok)
    ensures Fragment(c, ok).input == Behind(c, c.input)
    ensures !Fragment(c, ok).up.proceedReq && Fragment(c, ok).up.reader.None?
  {
    CallSameRecord(TakeFragment(c, Amount(c)), Complete(c));
  }

  lemma HeadCloses(p: Parser, c: Conn, data: Octets, ok: bool)
    requires ParserOk(p) && !c.closed && c.unconsumed == 0 && data != [] && c.up.reader.None? && c.down == NO_RESPONSE
    ensures HandleIncomingRequest(p, Receive(c, data)).closed <==> Closes(p, c, Read(data, ok))
  {
    IncomingCloses(p, Receive(c, data));
  }

  lemma ReceivedCloses(p: Parser, c: Conn, data: Octets, ok: bool)
    requires c.up.reader.Some?
    ensures var d := Receive(c, data); ClosesInBody(p, d, d.input, ok) <==> ClosesInBody(p, c, c.input + data, ok)
  {
  }

  lemma ReadsFrom(p: Parser, c: Conn)
    requires Inv(p, c) && !c.closed && c.reading
    ensures c.unconsumed == 0 && if c.up.reader.None? then c.down == NO_RESPONSE else c.up.received <= c.up.reader.value
  {
  }

  lemma SentCloses(p: Parser, c: Conn, error: bool)
    requires ParserOk(p) && !c.closed && c.unconsumed <= |c.input| && !c.up.proceedReq && c.up.reader.None?
    ensures Cleanup(p, c.(down := c.down.(inFlight := false, ostream := Done), persistent := c.persistent && !error)).closed
            <==> Closes(p, c, Sent(error))
  {
    CleanupCloses(p, c.(down := c.down.(inFlight := false, ostream := Done), persistent := c.persistent && !error));
  }

  lemma SendsFrom(p: Parser, c: Conn)
    requires Inv(p, c) && !c.closed && c.down.inFlight
    ensures c.unconsumed <= |c.input| && (!c.up.proceedReq ==> c.up.reader.None?)
  {
  }

  /** When exactly a connection closes. */
  lemma ClosesIff(p: Parser, c: Conn, e: Event)
    requires ParserOk(p) && Inv(p, c) && Enabled(c, e)
    ensures c.unconsumed <= |c.input|
    ensures Apply(p, c, e).closed <==> Closes(p, c, e)
  {
    match e {
      case Read(data, ok) =>
        ReadsFrom(p, c);
        if c.up.reader.None? {
          HeadCloses(p, c, data, ok);
        } else {
          EntityCloses(p, Receive(c, data), ok);
          ReceivedCloses(p, c, data, ok);
        }
      case Sent(error) =>
        SendsFrom(p, c);
        if !c.up.proceedReq {
          SentCloses(p, c, error);
        }
      case _ =>
    }
  }

  lemma CleanupAtTheLater(p: Parser, es: seq<Event>, e: Event)
    requires ParserOk(p)
    ensures Enabled(Run(p, es), e) ==> CleansAtTheLater(p, Run(p, es), e, Apply(p, Run(p, es), e))
  {
    if Enabled(Run(p, es), e) {
      StepCleans(p, Run(p, es), e);
    }
  }

  lemma CleanupCleans(p: Parser, c: Conn)
    requires ParserOk(p) && c.unconsumed <= |c.input|
    requires c.persistent ==> !c.up.proceedReq && c.up.reader.None?
    ensures var d := Cleanup(p, c);
            if c.persistent then d.finished == c.finished + [c.now] else d.finished == c.finished && d.closed
  {
    if c.persistent {
      IncomingKeepsHistory(p, InitRequest(c));
    }
  }

  lemma SentCleans(p: Parser, c: Conn, error: bool)
    requires ParserOk(p) && Inv(p, c) && Enabled(c, Sent(error))
    ensures var d := Apply(p, c, Sent(error));
            if c.up.proceedReq then d.finished == c.finished
            else if c.persistent && !error then d.finished == c.finished + [c.now]
            else d.finished == c.finished && d.closed
  {
    var d := c.(down := c.down.(inFlight := false, ostream := Done), persistent := c.persistent && !error);
    if !d.up.proceedReq {
      CleanupCleans(p, d);
    }
  }

  lemma ReadCleans(p: Parser, c: Conn, data: Octets, ok: bool)
    requires ParserOk(p) && Inv(p, c) && Enabled(c, Read(data, ok))
    ensures var d := Apply(p, c, Read(data, ok));
            if Ends(c, Read(data, ok)) then
              || (|d.finished| == |c.finished| + 1 && c.persistent && d.finished[..|c.finished|] == c.finished
                  && d.finished[|c.finished|].head == c.now.head)
              || (d.finished == c.finished && d.closed)
            else d.finished == c.finished
  {
    var d := Receive(c, data);
    if c.up.reader.None? {
      IncomingKeepsHistory(p, d);
    } else {
      FragmentKeepsHistory(d, ok);
      var f := Fragment(d, ok);
      FragmentKeepsNow(d, ok);
      if Complete(d) && !(d.up.writeReq.Handler? && !ok) && f.down.ostream.Done? {
        CleanupCleans(p, f);
      }
    }
  }

  lemma FragmentKeepsNow(c: Conn, ok: bool)
    requires c.up.reader.Some? && c.up.received <= c.up.reader.value
    ensures var f := Fragment(c, ok);
            && f.now.head == c.now.head && f.unconsumed == c.unconsumed
            && (f.persistent ==> c.persistent)
            && (Complete(c) && !(c.up.writeReq.Handler? && !ok) ==> f.persistent == c.persistent)
            && (c.up.writeReq.Handler? && !ok && c.down.ostream.Done? ==> f.closed)
            && (Complete(c) && !(c.up.writeReq.Handler? && !ok) ==> f.down == c.down)
  {
    var t := TakeFragment(c, Amount(c));
    CallSameRecord(t, Complete(c));
    CallKeepsResponse(t, Complete(c));
    CallKeepsPersistent(t, Complete(c));
  }

  lemma CallKeepsPersistent(c: Conn, complete: bool)
    ensures CallWriteReq(c, complete).persistent == c.persistent
  {
  }

  // ---------------------------------------------------------------- the handshake

  /** What a streaming handler sees of the current request: data given to it, and its asking
      for more. */
  datatype Call = Given | Asked

  /** The first fragment has been given, and the handler has not asked for more yet. */
  predicate First(c: Conn) {
    c.up.writeReq.Unset? && c.up.awaiting
  }

  function Extend(calls: seq<Call>, c: Conn, e: Event, d: Conn): seq<Call> {
    if d.index != c.index then (if First(d) then [Given] else [])
    else if e == Proceed(false) then calls + [Asked]
    else if e.Read? && c.up.reader.Some? && c.up.writeReq.Handler? then calls + [Given]
    else if First(d) && !First(c) then calls + [Given]
    else calls
  }

  /** The calls of the current request. */
  ghost function Calls(p: Parser, es: seq<Event>): seq<Call>
    requires ParserOk(p)
  {
    if es == [] then []
    else
      var c, e := Run(p, es[..|es| - 1]), es[|es| - 1];
      if Enabled(c, e) then Extend(Calls(p, es[..|es| - 1]), c, e, Apply(p, c, e)) else Calls(p, es[..|es| - 1])
  }

  predicate Alternating(calls: seq<Call>) {
    forall i :: 0 <= i < |calls| ==> calls[i] == if i % 2 == 0 then Given else Asked
  }

  /** The calls alternate; while the body is read for a handler it is the handler's turn exactly
      when it has been given something; and before there is one, there are no calls. */
  ghost predicate InTurn(c: Conn, calls: seq<Call>) {
    && Alternating(calls)
    && (!c.closed && c.up.reader.Some? && c.up.proceedReq ==> (|calls| % 2 == 1 <==> c.up.awaiting))
    && (!c.closed && !c.processed ==> calls == [] && !c.up.writeReq.Handler?)
  }

  /** A request for which no handler has asked yet. */
  lemma NewInTurn(p: Parser, d: Conn)
    requires Inv(p, d) && !d.up.writeReq.Handler?
    ensures InTurn(d, if First(d) then [Given] else [])
  {
  }

  lemma FragmentHandler(c: Conn, ok: bool)
    requires c.up.reader.Some? && c.up.received <= c.up.reader.value
    ensures Fragment(c, ok).up.writeReq.Handler? == c.up.writeReq.Handler?
  {
    CallHandler(TakeFragment(c, Amount(c)), Complete(c));
    ErrorHandler(CallWriteReq(TakeFragment(c, Amount(c)), Complete(c)));
  }

  lemma CallHandler(c: Conn, complete: bool)
    ensures CallWriteReq(c, complete).up.writeReq.Handler? == c.up.writeReq.Handler?
  {
    if c.up.writeReq.First? {
      NonStreamingHandler(c.(up := c.up.(writeReq := NonStreaming)), complete);
    } else if c.up.writeReq.NonStreaming? {
      NonStreamingHandler(c, complete);
    }
  }

  lemma NonStreamingHandler(c: Conn, complete: bool)
    ensures CallNonStreaming(c, complete).up.writeReq == c.up.writeReq
  {
  }

  lemma ErrorHandler(c: Conn)
    ensures EntityError(c).up.writeReq == c.up.writeReq
  {
  }

  lemma HeadNoHandler(c: Conn, b: Octets, h: Head)
    requires h.Head? && h.len <= |b| <= |c.input| && !c.up.writeReq.Handler?
    ensures !HandleHead(c, b, h).up.writeReq.Handler?
  {
    var d := WithHead(c, b, h);
    ErrorHandler(d);
    if h.entity.Length? {
      FragmentHandler(StartBody(d, h.entity.n), true);
    }
  }

  lemma IncomingNoHandler(p: Parser, c: Conn)
    requires ParserOk(p) && !c.up.writeReq.Handler?
    ensures !HandleIncomingRequest(p, c).up.writeReq.Handler?
  {
    var b := ParseLimit(c.input);
    if p(b).Head? {
      HeadNoHandler(c, b, p(b));
    }
  }

  /** Whether or not there is a next request, nobody has asked for its body. */
  lemma CleanupNoHandler(p: Parser, c: Conn)
    requires ParserOk(p) && c.unconsumed <= |c.input|
    requires c.persistent ==> !c.up.proceedReq && c.up.reader.None?
    ensures var d := Cleanup(p, c);
            if c.persistent then d.index == c.index + 1 && !d.up.writeReq.Handler? else d.closed && d.index == c.index
  {
    if c.persistent {
      IncomingKeepsHistory(p, InitRequest(c));
      IncomingNoHandler(p, InitRequest(c));
    }
  }

  lemma CleanupMeans(p: Parser, c: Conn)
    requires ParserOk(p) && c.unconsumed <= |c.input|
    requires c.persistent ==> !c.up.proceedReq && c.up.reader.None?
    ensures var d := Cleanup(p, c);
            && d.stream == c.stream
            && (d.closed <==> !c.persistent || BareCrlf(p, c.input[c.unconsumed..]))
            && if c.persistent then d.index == c.index + 1 && d.finished == c.finished + [c.now]
               else d.index == c.index && d.finished == c.finished && d.input == c.input
  {
    CleanupCleans(p, c);
    CleanupNoHandler(p, c);
    if c.persistent && InitRequest(c).input != [] {
      IncomingCloses(p, InitRequest(c));
      IncomingKeepsHistory(p, InitRequest(c));
    }
  }

  lemma SentInTurn(p: Parser, c: Conn, error: bool, calls: seq<Call>)
    requires ParserOk(p) && Inv(p, c) && Enabled(c, Sent(error)) && InTurn(c, calls)
    ensures InTurn(Apply(p, c, Sent(error)), Extend(calls, c, Sent(error), Apply(p, c, Sent(error))))
  {
    var d := c.(down := c.down.(inFlight := false, ostream := Done), persistent := c.persistent && !error);
    if !d.up.proceedReq {
      CleanupNoHandler(p, d);
      StepOk(p, c, Sent(error));
      if d.persistent {
        NewInTurn(p, Cleanup(p, d));
      }
    }
  }

  /** A head never comes for a handler. */
  lemma NewHeadInTurn(p: Parser, c: Conn, e: Event, r: Conn, calls: seq<Call>)
    requires !c.closed && !c.processed && c.up.reader.None? && !c.up.awaiting && InTurn(c, calls) && e.Read?
    requires Inv(p, r) && r.index == c.index && !r.up.writeReq.Handler?
    ensures InTurn(r, Extend(calls, c, e, r))
  {
    NewInTurn(p, r);
  }

  lemma HeadInTurn(p: Parser, c: Conn, data: Octets, ok: bool, calls: seq<Call>)
    requires ParserOk(p) && Inv(p, c) && Enabled(c, Read(data, ok)) && InTurn(c, calls) && c.up.reader.None?
    ensures InTurn(Apply(p, c, Read(data, ok)), Extend(calls, c, Read(data, ok), Apply(p, c, Read(data, ok))))
  {
    var d := Receive(c, data);
    IncomingKeepsHistory(p, d);
    IncomingNoHandler(p, d);
    StepOk(p, c, Read(data, ok));
    NewHeadInTurn(p, c, Read(data, ok), Apply(p, c, Read(data, ok)), calls);
  }

  /** A fragment of the body, short of the cleanup. */
  lemma FragmentInTurn(p: Parser, c: Conn, ok: bool, calls: seq<Call>)
    requires BodyState(p, c) && c.reading && !c.closed && InTurn(c, calls)
    ensures var d := Fragment(c, ok);
            var next := if c.up.writeReq.Handler? then calls + [Given] else if First(d) then [Given] else [];
            InTurn(d, next)
  {
  }

  lemma BodyInTurn(p: Parser, c: Conn, data: Octets, ok: bool, calls: seq<Call>)
    requires ParserOk(p) && Inv(p, c) && Enabled(c, Read(data, ok)) && InTurn(c, calls) && c.up.reader.Some?
    ensures InTurn(Apply(p, c, Read(data, ok)), Extend(calls, c, Read(data, ok), Apply(p, c, Read(data, ok))))
  {
    var d := Receive(c, data);
    var f := Fragment(d, ok);
    FragmentInTurn(p, d, ok, calls);
    FragmentKeepsHistory(d, ok);
    FragmentKeepsNow(d, ok);
    FragmentHandler(d, ok);
    if Complete(d) && !(d.up.writeReq.Handler? && !ok) && f.down.ostream.Done? {
      CleanupNoHandler(p, f);
      StepOk(p, c, Read(data, ok));
      if f.persistent {
        NewInTurn(p, Cleanup(p, f));
      }
    }
  }

  lemma StepInTurn(p: Parser, c: Conn, e: Event, calls: seq<Call>)
    requires ParserOk(p) && Inv(p, c) && Enabled(c, e) && InTurn(c, calls)
    ensures InTurn(Apply(p, c, e), Extend(calls, c, e, Apply(p, c, e)))
  {
    match e {
      case Read(data, ok) =>
        if c.up.reader.None? {
          HeadInTurn(p, c, data, ok, calls);
        } else {
          BodyInTurn(p, c, data, ok, calls);
        }
      case Sent(error) => SentInTurn(p, c, error, calls);
      case _ =>
    }
  }

  lemma {:induction false} AlwaysInTurn(p: Parser, es: seq<Event>)
    requires ParserOk(p)
    ensures InTurn(Run(p, es), Calls(p, es))
  {
    if es == [] {
    } else {
      var init, e := es[..|es| - 1], es[|es| - 1];
      AlwaysInTurn(p, init);
      if Enabled(Run(p, init), e) {
        StepInTurn(p, Run(p, init), e, Calls(p, init));
      }
    }
  }

  /** In every run, what a streaming handler sees of a request strictly alternates: it is given
      data, it asks, it is given more, and so on. While the body is read it has been given one
      more fragment than it has asked for exactly when it is its turn to ask; data is read for
      it only otherwise, into an empty buffer; and when it asks, the buffer is what it was
      given, as `proceed_request` asserts. */
  lemma HandshakeAlternates(p: Parser, es: seq<Event>)
    requires ParserOk(p)
    ensures var c, calls := Run(p, es), Calls(p, es);
            && Alternating(calls)
            && (!c.closed && c.up.reader.Some? && c.up.proceedReq ==>
                  && (|calls| % 2 == 1 <==> c.up.awaiting) && (c.reading <==> |calls| % 2 == 0)
                  && (c.reading ==> c.up.reqBody == []))
            && (Enabled(c, Proceed(false)) ==> |calls| % 2 == 1 && c.up.entity == c.up.reqBody)
  {
    AlwaysInTurn(p, es);
    assert Inv(p, Run(p, es));
  }

  /** How many of the octets read are taken for the body. */
  function Taken(c: Conn, data: Octets): (n: nat)
    requires c.up.reader.Some? && c.up.received <= c.up.reader.value
    ensures n <= |data|
  {
    if c.up.reader.value <= c.up.received + |data| then c.up.reader.value - c.up.received else |data|
  }

  /** The exchange, with these octets given to the handler, who is told if they are the last. */
  function Fed(c: Conn, data: Octets): Exchange
    requires c.up.reader.Some? && c.up.received <= c.up.reader.value
  {
    var piece := data[..Taken(c, data)];
    c.now.(body := c.now.body + piece, delivered := c.now.delivered + piece,
           ends := c.now.ends + if c.up.reader.value <= c.up.received + |data| then 1 else 0)
  }

  /** What a read for a streaming handler comes to. The handler refuses, and the body is given
      up; or more is to come, and it is the handler's turn to ask; or the body is over, and so is
      the request if the response is. */
  ghost predicate Feeds(c: Conn, data: Octets, ok: bool, d: Conn)
    requires c.up.reader.Some? && c.up.received <= c.up.reader.value
  {
    var x, n := Fed(c, data), Taken(c, data);
    if !ok then
      && d.now == x && d.index == c.index && d.input == data[n..]
      && !d.persistent && !d.reading && d.up.reader.None? && !d.up.proceedReq && (d.closed <==> c.down.ostream.Done?)
    else if c.up.received + |data| < c.up.reader.value then
      && d.now == x && d.index == c.index && d.input == []
      && d.up.awaiting && !d.reading && Enabled(d, Proceed(false)) && d.up.reader == c.up.reader
    else if !c.down.ostream.Done? || !c.persistent then
      && d.now == x && d.index == c.index && d.input == data[n..]
      && !d.reading && d.up.reader.None? && !d.up.proceedReq && (d.closed <==> c.down.ostream.Done?)
    else d.index == c.index + 1 && d.finished == c.finished + [x]
  }

  lemma CallFeeds(c: Conn, data: Octets)
    requires c.up.reader.Some? && c.up.received <= c.up.reader.value && c.up.writeReq.Handler?
    requires c.up.reqBody == [] && c.input == data
    ensures var d := CallWriteReq(TakeFragment(c, Amount(c)), Complete(c));
            && d.now == Fed(c, data) && d.input == data[Taken(c, data)..] && d.index == c.index && d.finished == c.finished
            && d.up.reader == c.up.reader && d.up.proceedReq == c.up.proceedReq && !d.reading && d.closed == c.closed
            && d.persistent == c.persistent && d.down == c.down && d.unconsumed == c.unconsumed
            && (!Complete(c) ==> d.up.awaiting)
  {
    assert [] + data[..Amount(c)] == data[..Amount(c)];
  }

  lemma FragmentFeeds(c: Conn, data: Octets, ok: bool)
    requires c.up.reader.Some? && c.up.received <= c.up.reader.value && c.up.writeReq.Handler? && c.up.proceedReq
    requires c.up.reqBody == [] && c.input == data && !c.closed
    ensures var d := Fragment(c, ok);
            && d.now == Fed(c, data) && d.input == data[Taken(c, data)..] && d.index == c.index && d.finished == c.finished
            && !d.reading && (ok ==> !d.closed && d.persistent == c.persistent && d.down == c.down)
            && (!ok ==> !d.persistent && d.up.reader.None? && !d.up.proceedReq && (d.closed <==> c.down.ostream.Done?))
            && (ok && Complete(c) ==> d.up.reader.None? && !d.up.proceedReq && d.unconsumed == c.unconsumed)
            && (ok && !Complete(c) ==> d.up.awaiting && d.up.proceedReq && d.up.reader == c.up.reader)
  {
    CallFeeds(c, data);
  }

  lemma EntityFeeds(p: Parser, c: Conn, data: Octets, ok: bool)
    requires ParserOk(p) && c.unconsumed == 0 && data != [] && !c.closed && c.input == data && c.up.reqBody == []
    requires c.up.reader.Some? && c.up.received <= c.up.reader.value && c.up.writeReq.Handler? && c.up.proceedReq
    ensures Feeds(c, data, ok, HandleEntity(p, c, ok))
  {
    FragmentFeeds(c, data, ok);
    var f := Fragment(c, ok);
    if ok && Complete(c) && f.down.ostream.Done? {
      CleanupCleans(p, f);
      CleanupNoHandler(p, f);
    }
  }

  lemma FeedsFrom(p: Parser, c: Conn)
    requires Inv(p, c) && !c.closed && c.reading && c.up.reader.Some? && c.up.writeReq.Handler?
    ensures c.input == [] && c.up.reqBody == [] && c.unconsumed == 0 && c.up.proceedReq && c.up.received <= c.up.reader.value
  {
  }

  lemma FeedsHandler(p: Parser, c: Conn, data: Octets, ok: bool)
    requires ParserOk(p) && Inv(p, c) && Enabled(c, Read(data, ok)) && c.up.writeReq.Handler? && c.up.reader.Some?
    ensures c.up.received <= c.up.reader.value
    ensures Feeds(c, data, ok, Apply(p, c, Read(data, ok)))
  {
    FeedsFrom(p, c);
    var d := Receive(c, data);
    assert d.input == data;
    EntityFeeds(p, d, data, ok);
    FeedsSame(c, d, data, ok, HandleEntity(p, d, ok));
  }

  lemma FeedsSame(c: Conn, d: Conn, data: Octets, ok: bool, r: Conn)
    requires c.up.reader.Some? && c.up.received <= c.up.reader.value && d == Receive(c, data) && Feeds(d, data, ok, r)
    ensures Feeds(c, data, ok, r)
  {
    assert Fed(c, data) == Fed(d, data) && Taken(c, data) == Taken(d, data);
  }

  /** In every run: a read for a streaming handler gives it exactly the octets that belong to the
      body, and then it is the handler's turn, or the body is over, or given up. */
  lemma ReadFeedsHandler(p: Parser, es: seq<Event>, data: Octets, ok: bool)
    requires ParserOk(p)
    ensures var c := Run(p, es);
            Enabled(c, Read(data, ok)) && c.up.writeReq.Handler? ==>
              && c.up.reader.Some? && c.up.received <= c.up.reader.value
              && Feeds(c, data, ok, Apply(p, c, Read(data, ok)))
  {
    var c := Run(p, es);
    AlwaysInTurn(p, es);
    if Enabled(c, Read(data, ok)) && c.up.writeReq.Handler? {
      FeedsHandler(p, c, data, ok);
    }
  }
}
