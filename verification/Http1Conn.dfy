/** The handlers of `lib/http1.c` in their own form: methods that update the fields of
    one connection, each proved to do what the functions of `Http1` say. */
module Http1Conn {
  import opened Basics
  import opened Options
  import opened Http1
  import opened Http1Runs

  class Connection {
    const parse: Parser

    var closed: bool
    var input: Octets
    var reading: bool
    var index: nat
    var unconsumed: nat
    var persistent: bool
    var canStream: bool
    var processed: bool
    var up: Upload
    var down: Response
    ghost var now: Exchange
    ghost var finished: seq<Exchange>
    ghost var stream: Octets

    ghost function View(): Conn
      reads this
    {
      Conn(closed, input, reading, index, unconsumed, persistent, canStream, processed, up, down, now, finished, stream)
    }

    /** `h2o_http1_accept` */
    constructor (p: Parser)
      requires ParserOk(p)
      ensures View() == ACCEPTED && parse == p && Inv(p, View())
    {
      parse := p;
      closed, input, reading, index, unconsumed := false, [], true, 1, 0;
      persistent, canStream, processed := false, false, false;
      up, down := NO_UPLOAD, NO_RESPONSE;
      now, finished, stream := NO_EXCHANGE, [], [];
    }

    method SendErrorResponse()
      modifies this
      ensures View() == SendError(old(View()))
    {
      reading, persistent, processed := false, false, true;
      down := Response(AtBody, false, true);
    }

    method EntityReadSendError()
      modifies this
      ensures View() == EntityError(old(View()))
      ensures !persistent && !reading && up.reader.None? && !up.proceedReq
      ensures closed <==> old(closed) || old(down.ostream.Done?)
      ensures old(down.ostream.AtHead? && !down.generating) ==> down.inFlight && processed
    {
      up := up.(proceedReq := false, reader := None);
      reading := false;
      if !down.generating && down.ostream.AtHead? {
        SendErrorResponse();
      } else {
        persistent := false;
        if down.ostream.Done? {
          closed := true;
        }
      }
    }

    method ClearRequest()
      modifies this
      ensures View() == ACCEPTED.(input := old(input), index := old(index), stream := old(stream), finished := old(finished))
    {
      closed, reading, unconsumed := false, true, 0;
      persistent, canStream, processed := false, false, false;
      up, down, now := NO_UPLOAD, NO_RESPONSE, NO_EXCHANGE;
    }

    method InitNextRequest()
      requires unconsumed <= |input|
      modifies this
      ensures View() == InitRequest(old(View()))
    {
      finished, input, index := finished + [now], input[unconsumed..], index + 1;
      ClearRequest();
    }

    /** The preconditions are the function's own assertions. */
    method CleanupConnection()
      requires ParserOk(parse) && unconsumed <= |input|
      requires persistent ==> !up.proceedReq
      requires persistent ==> up.reader.None?
      modifies this
      ensures View() == Cleanup(parse, old(View())) && stream == old(stream)
      ensures closed <==> !old(persistent) || BareCrlf(parse, old(input[unconsumed..]))
      ensures if old(persistent) then index == old(index) + 1 && finished == old(finished) + [old(now)]
              else index == old(index) && finished == old(finished) && input == old(input)
    {
      CleanupMeans(parse, View());
      if !persistent {
        closed := true;
        return;
      }
      InitNextRequest();
      if |input| != 0 {
        ParseRequest();
      }
    }

    /** `fixup_request` has found a body of n octets. */
    method BeginBody(n: nat)
      requires unconsumed <= |input|
      modifies this
      ensures View() == HandleFirstEntity(StartBody(old(View()), n))
    {
      input, unconsumed := input[unconsumed..], 0;
      up := Upload(Some(n), 0, [], up.entity, First, false, false);
      if n <= |input| || |input| != 0 {
        var _ := OneFragment(true);
      }
    }

    method ParseRequest()
      requires ParserOk(parse)
      modifies this
      ensures View() == HandleIncomingRequest(parse, old(View()))
    {
      var b := ParseLimit(input);
      match parse(b) {
        case Incomplete =>
          if |b| == MAX_REQLEN {
            SendErrorResponse();
          }
        case Broken =>
          if |b| <= 4 && CrlfOnly(b) {
            closed := true;
          } else {
            SendErrorResponse();
          }
        case Head(len, entity, keepAlive, stream) =>
          StoreHead(b[..len], keepAlive, stream);
          match entity {
            case NoBody => reading, processed := false, true;
            case Rejected => EntityReadSendError();
            case Length(n) => BeginBody(n);
          }
      }
    }

    method StoreHead(head: Octets, keepAlive: bool, stream: bool)
      modifies this
      ensures View() == old(View()).(unconsumed := |head|, persistent := keepAlive, canStream := stream,
                                     now := Exchange(head, [], [], 0))
    {
      unconsumed, persistent, canStream := |head|, keepAlive, stream;
      now := Exchange(head, [], [], 0);
    }

    /** `write_req_non_streaming` */
    method WriteNonStreaming(complete: bool)
      modifies this
      ensures View() == CallNonStreaming(old(View()), complete)
    {
      if complete {
        up := up.(proceedReq := false);
        processed := true;
        now := now.(delivered := up.entity, ends := now.ends + 1);
      } else {
        reading := true;
      }
    }

    /** Calls `write_req.cb`. */
    method Write(complete: bool)
      modifies this
      ensures View() == CallWriteReq(old(View()), complete)
    {
      match up.writeReq {
        case First =>
          if !complete && canStream {
            up := up.(writeReq := Unset, proceedReq := true, awaiting := true);
            processed := true;
            now := now.(delivered := up.entity);
          } else {
            up := up.(writeReq := NonStreaming);
            WriteNonStreaming(complete);
          }
        case NonStreaming => WriteNonStreaming(complete);
        case Handler =>
          now := now.(delivered := now.delivered + up.entity);
          if complete {
            now := now.(ends := now.ends + 1);
          } else {
            up := up.(awaiting := true);
          }
        case Unset =>
      }
    }

    /** Moves octets from the socket buffer to the request body. */
    method Take(length: nat)
      requires length <= |input|
      modifies this
      ensures View() == TakeFragment(old(View()), length)
    {
      var all := up.reqBody + input[..length];
      now := now.(body := now.body + input[..length]);
      input, reading := input[length..], false;
      up := up.(reqBody := all, entity := all, received := up.received + length);
    }

    /** `handle_content_length_entity_read` and `handle_one_body_fragment`, short of the
        cleanup; returns whether the body is over. */
    method OneFragment(ok: bool) returns (complete: bool)
      requires up.reader.Some? && up.received <= up.reader.value
      modifies this
      ensures View() == Fragment(old(View()), ok)
      ensures complete == (Complete(old(View())) && !(old(up.writeReq).Handler? && !ok))
      ensures now.body + input == old(now.body + input)
      ensures up.received == old(up.received) + |now.body| - |old(now.body)| <= old(up.reader.value)
      ensures if Complete(old(View())) then up.received == old(up.reader.value) else input == []
      ensures complete ==> up.reader.None? && !up.proceedReq
    {
      FragmentMeans(View(), ok);
      var length := |input|;
      complete := up.received + |input| >= up.reader.value;
      if complete {
        length := up.reader.value - up.received;
      }
      var handler := up.writeReq.Handler?;
      Take(length);
      Write(complete);
      if handler && !ok {
        EntityReadSendError();
        return false;
      }
      if complete {
        up := up.(proceedReq := false, reader := None);
      }
    }

    method EntityRead(ok: bool)
      requires ParserOk(parse) && up.reader.Some? && up.received <= up.reader.value && unconsumed == 0
      modifies this
      ensures View() == HandleEntity(parse, old(View()), ok)
    {
      if up.received + |input| < up.reader.value && |input| == 0 {
        return;
      }
      EntityReadFits(View(), ok);
      var complete := OneFragment(ok);
      if complete && down.ostream.Done? {
        CleanupConnection();
      }
    }

    // -------------------------------------------------------------- events

    /** `reqread_on_read` */
    method OnRead(data: Octets, ok: bool)
      requires ParserOk(parse) && Inv(parse, View()) && Enabled(View(), Read(data, ok))
      modifies this
      ensures View() == Apply(parse, old(View()), Read(data, ok)) && Inv(parse, View())
    {
      StepOk(parse, View(), Read(data, ok));
      input := input + data;
      stream := stream + data;
      if up.reader.None? {
        ParseRequest();
      } else {
        EntityRead(ok);
      }
    }

    /** `finalostream_send`; error is a state of the stream other than in progress and final. */
    method FinalOstreamSend(last: bool, error: bool)
      requires ParserOk(parse) && Inv(parse, View()) && Enabled(View(), Send(last, error))
      modifies this
      ensures View() == Apply(parse, old(View()), Send(last, error)) && Inv(parse, View())
    {
      StepOk(parse, View(), Send(last, error));
      if error {
        persistent := false;
      }
      down := Response(AtBody, !last, last);
    }

    /** `on_send_complete` */
    method OnSendComplete(error: bool)
      requires ParserOk(parse) && Inv(parse, View()) && Enabled(View(), Sent(error))
      modifies this
      ensures View() == Apply(parse, old(View()), Sent(error)) && Inv(parse, View())
    {
      StepOk(parse, View(), Sent(error));
      if error {
        persistent := false;
      }
      down := down.(inFlight := false, ostream := Done);
      if !up.proceedReq {
        CleanupConnection();
      }
    }

    /** `proceed_request` */
    method ProceedRequest(error: bool)
      requires ParserOk(parse) && Inv(parse, View()) && Enabled(View(), Proceed(error))
      modifies this
      ensures View() == Apply(parse, old(View()), Proceed(error)) && Inv(parse, View())
    {
      StepOk(parse, View(), Proceed(error));
      if error {
        EntityReadSendError();
        return;
      }
      assert |up.entity| == |up.reqBody|;
      up := up.(reqBody := [], awaiting := false, writeReq := Handler);
      reading := true;
    }
  }

  lemma CallKeepsReceived(c: Conn, complete: bool)
    ensures CallWriteReq(c, complete).up.received == c.up.received
  {
    if c.up.writeReq.First? {
      NonStreamingReceived(c.(up := c.up.(writeReq := NonStreaming)), complete);
    } else if c.up.writeReq.NonStreaming? {
      NonStreamingReceived(c, complete);
    }
  }

  lemma NonStreamingReceived(c: Conn, complete: bool)
    ensures CallNonStreaming(c, complete).up.received == c.up.received
  {
  }

  lemma TakenInOrder(body: Octets, input: Octets, n: nat)
    requires n <= |input|
    ensures body + input[..n] + input[n..] == body + input
  {
  }

  lemma TakeMeans(c: Conn)
    requires c.up.reader.Some? && c.up.received <= c.up.reader.value
    ensures var t := TakeFragment(c, Amount(c));
            && t.now.body + t.input == c.now.body + c.input
            && t.up.received == c.up.received + |t.now.body| - |c.now.body| <= c.up.reader.value
            && if Complete(c) then t.up.received == c.up.reader.value else t.input == []
  {
    TakenInOrder(c.now.body, c.input, Amount(c));
  }

  /** No octet is lost or taken twice, and the body gets what it declared and no more. */
  lemma FragmentMeans(c: Conn, ok: bool)
    requires c.up.reader.Some? && c.up.received <= c.up.reader.value
    ensures var d := Fragment(c, ok);
            && d.now.body + d.input == c.now.body + c.input
            && d.up.received == c.up.received + |d.now.body| - |c.now.body| <= c.up.reader.value
            && (if Complete(c) then d.up.received == c.up.reader.value else d.input == [])
            && (Complete(c) && !(c.up.writeReq.Handler? && !ok) ==> d.up.reader.None? && !d.up.proceedReq)
  {
    var t := TakeFragment(c, Amount(c));
    var d := CallWriteReq(t, Complete(c));
    CallSameRecord(t, Complete(c));
    CallKeepsReceived(t, Complete(c));
    TakeMeans(c);
    ErrorKeepsOctets(d);
  }

  lemma ErrorKeepsOctets(c: Conn)
    ensures var d := EntityError(c); d.now == c.now && d.input == c.input && d.up.received == c.up.received
  {
  }

  lemma EntityReadFits(c: Conn, ok: bool)
    requires c.up.reader.Some? && c.up.received <= c.up.reader.value && c.unconsumed == 0
    ensures Fragment(c, ok).unconsumed == 0
    ensures Complete(c) && !(c.up.writeReq.Handler? && !ok) ==>
              !Fragment(c, ok).up.proceedReq && Fragment(c, ok).up.reader.None?
  {
    var t := TakeFragment(c, Amount(c));
    CallSameRecord(t, Complete(c));
  }
}
