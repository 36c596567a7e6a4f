/** An HTTP/1 connection (`lib/http1.c`): reading heads and Content-Length bodies out of a
    socket buffer under any fragmentation, the `write_req`/`proceed_req` handshake with a
    handler that streams the body, and the cleanup that starts the next request.

    The head parser is a parameter. Handlers and socket writes complete asynchronously: they
    appear as events. */
module Http1 {
  import opened Basics
  import opened Options

  const MAX_REQLEN: nat := 8192 + 4096 * 100

  // ---------------------------------------------------------------- the head parser

  datatype Entity = NoBody | Length(n: nat) | Rejected
  datatype Head = Incomplete | Broken | Head(len: nat, entity: Entity, persistent: bool, canStream: bool)

  type Parser = Octets -> Head

  /** A head is decided by its own octets, whatever follows them. */
  ghost predicate ParserOk(p: Parser) {
    && (forall b: Octets :: p(b).Head? ==> 0 < p(b).len <= |b|)
    && (forall b: Octets {:trigger p(b[..p(b).len])} :: p(b).Head? && p(b).len <= |b| ==> p(b[..p(b).len]) == p(b))
    && (forall b: Octets, rest: Octets {:trigger p(b + rest)} :: p(b).Head? ==> p(b + rest) == p(b))
  }

  // ---------------------------------------------------------------- state

  /** `write_req.cb`; `Handler` is one installed by the handler that streams the body. */
  datatype WriteReq = Unset | First | NonStreaming | Handler

  /** Reading of the request body: `_req_entity_reader` with its content_length,
      `req_body_bytes_received`, `req_body`, `entity`, `write_req.cb`, whether `proceed_req`
      is set, and whether the handler holds a fragment and has not asked for more. */
  datatype Upload = Upload(
    reader: Option<nat>, received: nat, reqBody: Octets, entity: Octets,
    writeReq: WriteReq, proceedReq: bool, awaiting: bool)

  datatype Ostream = AtHead | AtBody | Done

  /** Sending of the response: `_ostr_final.state`, whether a generator is set, and whether
      the last write is under way. */
  datatype Response = Response(ostream: Ostream, generating: bool, inFlight: bool)

  /** What happened to one request: its head, its body, what the handler was given of the
      body and how often it was told that the body had ended. */
  datatype Exchange = Exchange(head: Octets, body: Octets, delivered: Octets, ends: nat)

  datatype Conn = Conn(
    closed: bool,
    input: Octets,              // sock->input
    reading: bool,
    index: nat,                 // _req_index
    unconsumed: nat,            // _unconsumed_request_size
    persistent: bool,
    canStream: bool,
    processed: bool,            // h2o_process_request has been called
    up: Upload,
    down: Response,
    now: Exchange,
    finished: seq<Exchange>,
    stream: Octets)             // everything ever received

  const NO_UPLOAD: Upload := Upload(None, 0, [], [], Unset, false, false)
  const NO_RESPONSE: Response := Response(AtHead, false, false)
  const NO_EXCHANGE: Exchange := Exchange([], [], [], 0)

  /** A connection that has just been accepted, and reads. */
  const ACCEPTED: Conn :=
    Conn(false, [], true, 1, 0, false, false, false, NO_UPLOAD, NO_RESPONSE, NO_EXCHANGE, [], [])

  function Closed(c: Conn): Conn {
    c.(closed := true)
  }

  // ---------------------------------------------------------------- responses with an error

  /** A generated error response that closes the connection. */
  function SendError(c: Conn): Conn {
    c.(reading := false, persistent := false, processed := true, down := Response(AtBody, false, true))
  }

  /** `entity_read_do_send_error` */
  function EntityError(c: Conn): Conn {
    var d := c.(up := c.up.(proceedReq := false, reader := None), reading := false);
    if !d.down.generating && d.down.ostream.AtHead? then SendError(d)
    else if d.down.ostream.Done? then Closed(d.(persistent := false))
    else d.(persistent := false)
  }

  // ---------------------------------------------------------------- the next request

  /** `init_request` on a connection that has served one. */
  function InitRequest(c: Conn): Conn
    requires c.unconsumed <= |c.input|
  {
    ACCEPTED.(input := c.input[c.unconsumed..], index := c.index + 1, stream := c.stream,
              finished := c.finished + [c.now])
  }

  /** `cleanup_connection`; its two assertions are the last precondition. */
  function Cleanup(p: Parser, c: Conn): Conn
    requires ParserOk(p) && c.unconsumed <= |c.input|
    requires c.persistent ==> !c.up.proceedReq && c.up.reader.None?
  {
    if !c.persistent then Closed(c)
    else
      var d := InitRequest(c);
      if d.input == [] then d else HandleIncomingRequest(p, d)
  }

  predicate CrlfOnly(b: Octets) {
    forall i :: 0 <= i < |b| ==> b[i] == 13 || b[i] == 10
  }

  function ParseLimit(input: Octets): (b: Octets)
    ensures b <= input
  {
    if |input| < MAX_REQLEN then input else input[..MAX_REQLEN]
  }

  /** `handle_incoming_request` */
  function HandleIncomingRequest(p: Parser, c: Conn): Conn
    requires ParserOk(p)
  {
    var b := ParseLimit(c.input);
    match p(b)
    case Incomplete => if |b| == MAX_REQLEN then SendError(c) else c
    case Broken => if |b| <= 4 && CrlfOnly(b) then Closed(c) else SendError(c)
    case Head(_, _, _, _) => HandleHead(c, b, p(b))
  }

  /** The connection with a parsed head. */
  function WithHead(c: Conn, b: Octets, h: Head): Conn
    requires h.Head? && h.len <= |b|
  {
    c.(unconsumed := h.len, persistent := h.persistent, canStream := h.canStream, now := Exchange(b[..h.len], [], [], 0))
  }

  function HandleHead(c: Conn, b: Octets, h: Head): Conn
    requires h.Head? && h.len <= |b| <= |c.input|
  {
    var d := WithHead(c, b, h);
    match h.entity
    case NoBody => d.(reading := false, processed := true)
    case Rejected => EntityError(d)
    case Length(n) => HandleFirstEntity(StartBody(d, n))
  }

  function StartBody(c: Conn, n: nat): Conn
    requires c.unconsumed <= |c.input|
  {
    c.(unconsumed := 0, input := c.input[c.unconsumed..], up := Upload(Some(n), 0, [], c.up.entity, First, false, false))
  }

  // ---------------------------------------------------------------- the body

  /** What `handle_content_length_entity_read` decides to take. */
  predicate Complete(c: Conn)
    requires c.up.reader.Some?
  {
    c.up.reader.value <= c.up.received + |c.input|
  }

  function Amount(c: Conn): (n: nat)
    requires c.up.reader.Some? && c.up.received <= c.up.reader.value
    ensures n <= |c.input|
  {
    if Complete(c) then c.up.reader.value - c.up.received else |c.input|
  }

  /** The callbacks that `write_req.cb` can be, `write_req_first` and
      `write_req_non_streaming` among them. */
  function CallWriteReq(c: Conn, complete: bool): Conn {
    match c.up.writeReq
    case First =>
      if !complete && c.canStream then
        c.(up := c.up.(writeReq := Unset, proceedReq := true, awaiting := true), processed := true,
           now := c.now.(delivered := c.up.entity))
      else CallNonStreaming(c.(up := c.up.(writeReq := NonStreaming)), complete)
    case NonStreaming => CallNonStreaming(c, complete)
    case Handler =>
      if complete then c.(now := c.now.(delivered := c.now.delivered + c.up.entity, ends := c.now.ends + 1))
      else c.(now := c.now.(delivered := c.now.delivered + c.up.entity), up := c.up.(awaiting := true))
    case Unset => c
  }

  function CallNonStreaming(c: Conn, complete: bool): Conn {
    if complete then
      c.(up := c.up.(proceedReq := false), processed := true,
         now := c.now.(delivered := c.up.entity, ends := c.now.ends + 1))
    else c.(reading := true)
  }

  /** Moves octets from the socket buffer to the request body. */
  function TakeFragment(c: Conn, length: nat): Conn
    requires length <= |c.input|
  {
    var all := c.up.reqBody + c.input[..length];
    c.(reading := false, input := c.input[length..],
       up := c.up.(reqBody := all, entity := all, received := c.up.received + length),
       now := c.now.(body := c.now.body + c.input[..length]))
  }

  function EndBody(c: Conn): Conn {
    c.(up := c.up.(proceedReq := false, reader := None))
  }

  /** `handle_one_body_fragment` up to the cleanup; `ok` is what the handler answers. */
  function Fragment(c: Conn, ok: bool): Conn
    requires c.up.reader.Some? && c.up.received <= c.up.reader.value
  {
    var d := CallWriteReq(TakeFragment(c, Amount(c)), Complete(c));
    if c.up.writeReq.Handler? && !ok then EntityError(d)
    else if Complete(c) then EndBody(d)
    else d
  }

  /** The body octets that came with the head; the response cannot be over yet. */
  function HandleFirstEntity(c: Conn): Conn
    requires c.up.reader.Some? && c.up.received <= c.up.reader.value
  {
    if !Complete(c) && c.input == [] then c else Fragment(c, true)
  }

  /** `handle_content_length_entity_read` when the socket has been read. */
  function HandleEntity(p: Parser, c: Conn, ok: bool): Conn
    requires ParserOk(p) && c.up.reader.Some? && c.up.received <= c.up.reader.value && c.unconsumed == 0
  {
    if !Complete(c) && c.input == [] then c
    else
      var d := Fragment(c, ok);
      if Complete(c) && !(c.up.writeReq.Handler? && !ok) && d.down.ostream.Done? then Cleanup(p, d) else d
  }

  // ---------------------------------------------------------------- events

  datatype Event =
    | Read(data: Octets, ok: bool)   // reqread_on_read
    | Start                          // h2o_start_response
    | Send(last: bool, error: bool)  // finalostream_send
    | Sent(error: bool)              // on_send_complete
    | Proceed(error: bool)           // proceed_request
    | Drop                           // a timeout, a socket error, or the peer is gone

  predicate Enabled(c: Conn, e: Event) {
    !c.closed &&
    match e
    case Read(data, _) => c.reading && data != []
    case Start => c.processed && !c.down.generating && c.down.ostream.AtHead?
    case Send(last, error) => c.down.generating && !c.down.ostream.Done? && !c.down.inFlight && (error ==> last)
    case Sent(_) => c.down.inFlight
    case Proceed(error) => c.up.proceedReq && (!error ==> c.up.awaiting)
    case Drop => true
  }

  function Receive(c: Conn, data: Octets): Conn {
    c.(input := c.input + data, stream := c.stream + data)
  }

  function Apply(p: Parser, c: Conn, e: Event): Conn
    requires ParserOk(p) && Inv(p, c) && Enabled(c, e)
  {
    match e
    case Read(data, ok) =>
      var d := Receive(c, data);
      if d.up.reader.None? then HandleIncomingRequest(p, d) else HandleEntity(p, d, ok)
    case Start => c.(down := c.down.(generating := true))
    case Send(last, error) => c.(down := Response(AtBody, !last, last), persistent := c.persistent && !error)
    case Sent(error) =>
      var d := c.(down := c.down.(inFlight := false, ostream := Done), persistent := c.persistent && !error);
      if d.up.proceedReq then d else Cleanup(p, d)
    case Proceed(error) =>
      if error then EntityError(c)
      else c.(up := c.up.(reqBody := [], awaiting := false, writeReq := Handler), reading := true)
    case Drop => Closed(c)
  }

  // ---------------------------------------------------------------- invariant

  /** Head and body are what the parser and the Content-Length make of them. */
  ghost predicate Good(p: Parser, x: Exchange) {
    && p(x.head).Head? && p(x.head).len == |x.head|
    && match p(x.head).entity
       case NoBody => x.body == [] && x.delivered == [] && x.ends == 0
       case Length(n) => |x.body| == n && x.delivered == x.body && x.ends == 1
       case Rejected => false
  }

  function Flat(xs: seq<Exchange>): Octets {
    if xs == [] then [] else Flat(xs[..|xs| - 1]) + (xs[|xs| - 1].head + xs[|xs| - 1].body)
  }

  /** Octets of the current request that have left the socket buffer. */
  function Current(c: Conn): Octets {
    if c.unconsumed == 0 then c.now.head + c.now.body else []
  }

  /** While the body is being read, whatever has arrived. */
  ghost predicate BodyState(p: Parser, c: Conn) {
    && c.up.reader.Some? && c.unconsumed == 0
    && p(c.now.head).Head? && p(c.now.head).len == |c.now.head| && p(c.now.head).entity == Length(c.up.reader.value)
    && c.up.received == |c.now.body| <= c.up.reader.value && c.now.ends == 0
    && match c.up.writeReq
       case First => c.now.body == [] && c.up.reqBody == [] && BeforeHandler(c)
       case NonStreaming => c.up.reqBody == c.now.body && BeforeHandler(c)
       case Unset => WithHandler(c) && c.up.awaiting && !c.reading
       case Handler => WithHandler(c) && (c.reading <==> !c.up.awaiting) && (!c.up.awaiting ==> c.up.reqBody == [])
  }

  predicate BeforeHandler(c: Conn) {
    !c.processed && c.reading && !c.up.proceedReq && !c.up.awaiting && c.now.delivered == []
  }

  predicate WithHandler(c: Conn) {
    c.processed && c.up.proceedReq && c.now.delivered == c.now.body
  }

  /** ... between two reads: everything that arrived has been taken and there is more to come. */
  ghost predicate ReadingBody(p: Parser, c: Conn) {
    BodyState(p, c) && c.input == [] && c.up.received < c.up.reader.value
  }

  /** A head that has been parsed but not consumed is still in front of the buffer. */
  predicate HeadInPlace(c: Conn) {
    && c.unconsumed <= |c.input|
    && (c.unconsumed != 0 ==> c.now.head == c.input[..c.unconsumed] && c.now.body == [])
  }

  /** While a whole request is with its handler. */
  ghost predicate ReadWhole(p: Parser, c: Conn) {
    && c.up.reader.None? && !c.up.proceedReq && c.processed && !c.reading
    && HeadInPlace(c)
    && (c.persistent ==> Good(p, c.now))
  }

  /** Before the head of a request is complete. */
  ghost predicate ReadingHead(c: Conn) {
    && c.up.reader.None? && !c.up.proceedReq && !c.up.awaiting && !c.processed && c.reading && c.unconsumed == 0
    && c.now == NO_EXCHANGE && c.down == NO_RESPONSE
  }

  /** The record of the connection: finished requests are good, and every octet received is
      in exactly one of them, in the current request, or still in the socket buffer. */
  ghost predicate Record(p: Parser, c: Conn) {
    && c.index == |c.finished| + 1
    && (forall i :: 0 <= i < |c.finished| ==> Good(p, c.finished[i]))
    && c.stream == Flat(c.finished) + Current(c) + c.input
  }

  ghost predicate Flags(c: Conn) {
    && (!c.down.ostream.AtHead? || c.down.generating ==> c.processed)
    && (c.down.inFlight ==> c.down.ostream.AtBody?)
    && (c.up.awaiting && c.up.proceedReq ==> c.up.entity == c.up.reqBody)
  }

  /** Nothing that is over waits for its cleanup. */
  ghost predicate CleanedUp(c: Conn) {
    c.down.ostream.Done? ==> c.up.proceedReq
  }

  ghost predicate Inv(p: Parser, c: Conn) {
    && Record(p, c)
    && (!c.closed ==> Flags(c) && CleanedUp(c) && (ReadingHead(c) || ReadingBody(p, c) || ReadWhole(p, c)))
  }

  // ---------------------------------------------------------------- preservation

  lemma SendErrorOk(p: Parser, c: Conn)
    requires Record(p, c) && HeadInPlace(c) && !c.up.proceedReq && c.up.reader.None?
    ensures Inv(p, SendError(c))
  {
  }

  lemma ErrorOk(p: Parser, c: Conn)
    requires Record(p, c) && HeadInPlace(c) && Flags(c)
    ensures Inv(p, EntityError(c))
  {
  }

  lemma FlatSnoc(xs: seq<Exchange>, x: Exchange)
    ensures Flat(xs + [x]) == Flat(xs) + (x.head + x.body)
  {
    assert (xs + [x])[..|xs|] == xs;
  }

  lemma InitOk(p: Parser, c: Conn)
    requires Record(p, c) && HeadInPlace(c) && Good(p, c.now)
    ensures Inv(p, InitRequest(c)) && ReadingHead(InitRequest(c))
  {
    FlatSnoc(c.finished, c.now);
    InitStream(Flat(c.finished), c.now.head, c.now.body, c.input, c.unconsumed);
  }

  lemma InitStream(before: Octets, head: Octets, body: Octets, input: Octets, k: nat)
    requires k <= |input| && (k != 0 ==> head == input[..k] && body == [])
    ensures before + (if k == 0 then head + body else []) + input == before + (head + body) + ([] + []) + input[k..]
  {
    if k == 0 {
      assert input[k..] == input;
    } else {
      assert input == input[..k] + input[k..];
      assert head + body == head;
    }
  }

  lemma TakeOk(p: Parser, c: Conn, length: nat)
    requires Record(p, c) && c.unconsumed == 0 && length <= |c.input|
    ensures Record(p, TakeFragment(c, length))
  {
    TakeStream(Flat(c.finished), c.now.head, c.now.body, c.input, length);
  }

  lemma TakeStream(before: Octets, head: Octets, body: Octets, input: Octets, k: nat)
    requires k <= |input|
    ensures before + (head + body) + input == before + (head + (body + input[..k])) + input[k..]
  {
    assert input == input[..k] + input[k..];
  }

  predicate SameRecord(c: Conn, d: Conn) {
    && d.index == c.index && d.finished == c.finished && d.stream == c.stream && d.input == c.input
    && d.unconsumed == c.unconsumed && d.now.head == c.now.head && d.now.body == c.now.body
  }

  lemma RecordKept(p: Parser, c: Conn, d: Conn)
    requires Record(p, c) && SameRecord(c, d)
    ensures Record(p, d)
  {
  }

  lemma CallSameRecord(c: Conn, complete: bool)
    ensures SameRecord(c, CallWriteReq(c, complete))
  {
    match c.up.writeReq {
      case First => CallFirstSameRecord(c, complete);
      case NonStreaming => CallNonStreamingSameRecord(c, complete);
      case Handler => CallHandlerSameRecord(c, complete);
      case Unset =>
    }
  }

  lemma CallFirstSameRecord(c: Conn, complete: bool)
    requires c.up.writeReq.First?
    ensures SameRecord(c, CallWriteReq(c, complete))
  {
    CallNonStreamingSameRecord(c.(up := c.up.(writeReq := NonStreaming)), complete);
  }

  lemma CallHandlerSameRecord(c: Conn, complete: bool)
    requires c.up.writeReq.Handler?
    ensures SameRecord(c, CallWriteReq(c, complete))
  {
  }

  lemma CallNonStreamingSameRecord(c: Conn, complete: bool)
    ensures SameRecord(c, CallNonStreaming(c, complete))
  {
  }

  lemma ErrorSameRecord(c: Conn)
    ensures SameRecord(c, SendError(c)) && SameRecord(c, EntityError(c))
  {
  }

  lemma CallKeepsRecord(p: Parser, c: Conn, complete: bool)
    requires Record(p, c)
    ensures Record(p, CallWriteReq(c, complete))
  {
    CallSameRecord(c, complete);
    RecordKept(p, c, CallWriteReq(c, complete));
  }

  /** A body about to be fed: the callback is installed and nobody is being waited for. */
  ghost predicate Ready(p: Parser, c: Conn) {
    && !c.closed && BodyState(p, c) && Flags(c) && CleanedUp(c)
    && !c.up.writeReq.Unset? && !c.up.awaiting
  }

  lemma PartialOk(p: Parser, c: Conn)
    requires Ready(p, c) && Record(p, c) && !Complete(c)
    ensures var d := CallWriteReq(TakeFragment(c, |c.input|), false); Inv(p, d) && ReadingBody(p, d)
  {
    var t := TakeFragment(c, |c.input|);
    TakeOk(p, c, |c.input|);
    CallKeepsRecord(p, t, false);
    assert c.input[..|c.input|] == c.input;
    assert [] + c.input == c.input;
  }

  lemma WholeOk(p: Parser, c: Conn)
    requires Ready(p, c) && Record(p, c) && Complete(c)
    ensures var d := EndBody(CallWriteReq(TakeFragment(c, Amount(c)), true));
            Record(p, d) && Flags(d) && ReadWhole(p, d) && Good(p, d.now) && d.unconsumed == 0 && d.down == c.down
            && !d.closed
  {
    var n := Amount(c);
    TakeOk(p, c, n);
    CallKeepsRecord(p, TakeFragment(c, n), true);
    assert [] + c.input[..n] == c.input[..n];
  }

  lemma FailedOk(p: Parser, c: Conn)
    requires Ready(p, c) && Record(p, c) && c.up.writeReq.Handler?
    ensures Inv(p, EntityError(CallWriteReq(TakeFragment(c, Amount(c)), Complete(c))))
  {
    TakeOk(p, c, Amount(c));
    var t := TakeFragment(c, Amount(c));
    CallKeepsRecord(p, t, Complete(c));
    ErrorOk(p, CallWriteReq(t, Complete(c)));
  }

  lemma FirstEntityOk(p: Parser, c: Conn)
    requires Ready(p, c) && Record(p, c) && c.up.writeReq.First? && c.down == NO_RESPONSE
    ensures Inv(p, HandleFirstEntity(c))
  {
    if Complete(c) {
      WholeOk(p, c);
    } else if c.input != [] {
      PartialOk(p, c);
    }
  }

  lemma IncomingOk(p: Parser, c: Conn)
    requires ParserOk(p) && Record(p, c) && !c.closed && ReadingHead(c)
    ensures Inv(p, HandleIncomingRequest(p, c))
  {
    var b := ParseLimit(c.input);
    match p(b) {
      case Incomplete => SendErrorOk(p, c);
      case Broken => SendErrorOk(p, c);
      case Head(len, entity, persistent, canStream) =>
        var d := WithHead(c, b, p(b));
        assert b[..len] == d.input[..len];
        ParsedOk(p, c, d, b, len);
        match entity {
          case NoBody =>
          case Rejected => ErrorOk(p, d);
          case Length(n) =>
            StartOk(p, d, n);
            FirstEntityOk(p, StartBody(d, n));
        }
    }
  }

  lemma ParsedOk(p: Parser, c: Conn, d: Conn, b: Octets, len: nat)
    requires ParserOk(p) && Record(p, c) && ReadingHead(c) && b == ParseLimit(c.input)
    requires p(b).Head? && len == p(b).len
    requires d == c.(unconsumed := len, persistent := d.persistent, canStream := d.canStream,
                     now := Exchange(b[..len], [], [], 0))
    ensures Record(p, d) && HeadInPlace(d) && Flags(d) && 0 < d.unconsumed
    ensures p(d.now.head) == p(b) && |d.now.head| == len
  {
    assert p(b[..p(b).len]) == p(b);
    assert b[..len] == d.input[..len];
  }

  lemma StartOk(p: Parser, d: Conn, n: nat)
    requires Record(p, d) && HeadInPlace(d) && Flags(d) && 0 < d.unconsumed && !d.closed
    requires d.reading && !d.processed && d.down == NO_RESPONSE
    requires p(d.now.head).Head? && p(d.now.head).len == |d.now.head| && p(d.now.head).entity == Length(n)
    requires d.now.delivered == [] && d.now.ends == 0
    ensures Record(p, StartBody(d, n)) && Ready(p, StartBody(d, n))
  {
    var e := StartBody(d, n);
    assert d.input == d.input[..d.unconsumed] + d.input[d.unconsumed..];
    assert d.now.head + [] == d.now.head;
    assert Flat(d.finished) + [] + d.input == Flat(d.finished) + (d.now.head + d.now.body) + e.input;
  }

  lemma CleanupOk(p: Parser, c: Conn)
    requires ParserOk(p) && Record(p, c) && !c.closed && HeadInPlace(c)
    requires !c.up.proceedReq && c.up.reader.None? && (c.persistent ==> Good(p, c.now))
    ensures Inv(p, Cleanup(p, c))
  {
    if c.persistent {
      InitOk(p, c);
      if InitRequest(c).input != [] {
        IncomingOk(p, InitRequest(c));
      }
    }
  }

  lemma EntityOk(p: Parser, c: Conn, ok: bool)
    requires ParserOk(p) && Ready(p, c) && Record(p, c) && c.input != []
    ensures Inv(p, HandleEntity(p, c, ok))
  {
    if c.up.writeReq.Handler? && !ok {
      FailedOk(p, c);
    } else if Complete(c) {
      WholeOk(p, c);
      var d := EndBody(CallWriteReq(TakeFragment(c, Amount(c)), true));
      if d.down.ostream.Done? {
        CleanupOk(p, d);
      }
    } else {
      PartialOk(p, c);
    }
  }

  lemma ReceiveOk(p: Parser, c: Conn, data: Octets)
    requires Record(p, c)
    ensures Record(p, Receive(c, data))
  {
    assert Flat(c.finished) + Current(c) + c.input + data == Flat(c.finished) + Current(c) + (c.input + data);
  }

  lemma ReadOk(p: Parser, c: Conn, data: Octets, ok: bool)
    requires ParserOk(p) && Inv(p, c) && Enabled(c, Read(data, ok))
    ensures Inv(p, Apply(p, c, Read(data, ok)))
  {
    var d := Receive(c, data);
    ReceiveOk(p, c, data);
    if ReadingHead(c) {
      IncomingOk(p, d);
    } else {
      assert ReadingBody(p, c);
      EntityOk(p, d, ok);
    }
  }

  lemma SentOk(p: Parser, c: Conn, error: bool)
    requires ParserOk(p) && Inv(p, c) && Enabled(c, Sent(error))
    ensures Inv(p, Apply(p, c, Sent(error)))
  {
    var d := c.(down := c.down.(inFlight := false, ostream := Done), persistent := c.persistent && !error);
    RecordKept(p, c, d);
    if !d.up.proceedReq {
      CleanupOk(p, d);
    }
  }

  lemma ProceedOk(p: Parser, c: Conn, error: bool)
    requires ParserOk(p) && Inv(p, c) && Enabled(c, Proceed(error))
    ensures Inv(p, Apply(p, c, Proceed(error)))
  {
    if error {
      ErrorOk(p, c);
    } else {
      RecordKept(p, c, Apply(p, c, Proceed(error)));
    }
  }

  lemma SendOk(p: Parser, c: Conn, e: Event)
    requires ParserOk(p) && Inv(p, c) && Enabled(c, e) && (e.Start? || e.Send? || e.Drop?)
    ensures Inv(p, Apply(p, c, e))
  {
    RecordKept(p, c, Apply(p, c, e));
  }

  lemma StepOk(p: Parser, c: Conn, e: Event)
    requires ParserOk(p) && Inv(p, c) && Enabled(c, e)
    ensures Inv(p, Apply(p, c, e))
  {
    match e {
      case Read(data, ok) => ReadOk(p, c, data, ok);
      case Sent(error) => SentOk(p, c, error);
      case Proceed(error) => ProceedOk(p, c, error);
      case _ => SendOk(p, c, e);
    }
  }
}
