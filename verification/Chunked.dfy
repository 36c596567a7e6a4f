/** The chunked response encoder of `lib/http1.c` (`encode_chunked`, the body part of
    `finalostream_send`, the trailer written by `on_send_complete`), against a parser for the
    chunked transfer coding of section 7.1 of RFC 9112. */
module Chunked {
  import opened Basics
  import opened Options
  import opened ServerTiming

  const CRLF: Octets := [CR, LF]
  const ZERO: Octet := 48
  const COLON: Octet := 58
  const SEMICOLON: Octet := 59

  // ---------------------------------------------------------------- hexadecimal

  function Digit(d: nat): Octet
    requires d < 16
  {
    if d < 10 then 48 + d else 87 + d
  }

  predicate IsHex(c: Octet) {
    48 <= c <= 57 || 65 <= c <= 70 || 97 <= c <= 102
  }

  function DigitValue(c: Octet): (d: nat)
    requires IsHex(c)
    ensures d < 16
  {
    if c <= 57 then c - 48 else if c <= 70 then c - 55 else c - 87
  }

  /** What "%zx" prints. */
  function Hex(n: nat): (h: Octets)
    ensures h != [] && forall i :: 0 <= i < |h| ==> IsHex(h[i])
  {
    if n < 16 then [Digit(n)] else Hex(n / 16) + [Digit(n % 16)]
  }

  function HexValue(h: Octets): nat
    requires forall i :: 0 <= i < |h| ==> IsHex(h[i])
  {
    if h == [] then 0 else 16 * HexValue(h[..|h| - 1]) + DigitValue(h[|h| - 1])
  }

  lemma {:induction false} HexRoundTrip(n: nat)
    ensures HexValue(Hex(n)) == n
  {
    if n < 16 {
      assert Hex(n)[..0] == [];
    } else {
      HexRoundTrip(n / 16);
      assert Hex(n)[..|Hex(n)| - 1] == Hex(n / 16);
    }
  }

  function Pow16(k: nat): (r: nat)
    ensures 1 <= r
  {
    if k == 0 then 1 else 16 * Pow16(k - 1)
  }

  /** k digits suffice exactly below 16^k. */
  lemma {:induction false} HexLength(n: nat, k: nat)
    requires 1 <= k
    ensures |Hex(n)| <= k <==> n < Pow16(k)
    decreases k
  {
    if k == 1 {
      assert Pow16(1) == 16 * Pow16(0);
    } else if 16 <= n {
      HexLength(n / 16, k - 1);
    } else {
      assert Pow16(k) == 16 * Pow16(k - 1);
    }
  }

  /** `sizeof(size_t) * 2 + sizeof("\\r\\n")` octets hold the header of every 64-bit chunk size
      and its terminating NUL, and of no larger one. */
  lemma HeaderFitsBuffer(n: nat)
    ensures |Hex(n) + CRLF| + 1 <= 19 <==> n < 0x1_0000_0000_0000_0000
  {
    HexLength(n, 16);
    Pow16Values();
  }

  lemma Pow16Values()
    ensures Pow16(16) == 0x1_0000_0000_0000_0000
  {
    assert Pow16(4) == 0x1_0000;
    assert Pow16(8) == 0x1_0000_0000;
    assert Pow16(12) == 0x1_0000_0000_0000;
  }

  // ---------------------------------------------------------------- the encoder

  datatype SendState = InProgress | Final | Error

  /** What goes before and after the data of one send. */
  function Prefix(size: nat): Octets {
    if size != 0 then Hex(size) + CRLF else []
  }

  function Suffix(state: SendState, size: nat, trailers: bool): Octets {
    match state
    case Error => CRLF + [49] + CRLF
    case InProgress => if size != 0 then CRLF else []
    case Final => (if size != 0 then CRLF else []) + [ZERO] + CRLF + (if trailers then [] else CRLF)
  }

  /** `encode_chunked`: cuts the suffix out of two literals. */
  method EncodeChunked(state: SendState, size: nat, trailers: bool) returns (prefix: Octets, suffix: Octets)
    ensures prefix == Prefix(size) && suffix == Suffix(state, size, trailers)
  {
    prefix, suffix := [], [];
    if size != 0 {
      prefix := Hex(size) + CRLF;
      if state != Error {
        var raw: Octets := CRLF + [ZERO] + CRLF + CRLF;
        suffix := raw[..if state == Final then if trailers then 5 else 7 else 2];
      }
    } else if state == Final {
      var raw: Octets := [ZERO] + CRLF + CRLF;
      suffix := raw[..if trailers then 3 else 5];
    }
    if state == Error {
      suffix := CRLF + [49] + CRLF;
    }
  }

  function Concat(bufs: seq<Octets>): Octets {
    if bufs == [] then [] else Concat(bufs[..|bufs| - 1]) + bufs[|bufs| - 1]
  }

  function EncodeSend(data: Octets, state: SendState, trailers: bool): Octets {
    Prefix(|data|) + data + Suffix(state, |data|, trailers)
  }

  /** The body part of `finalostream_send`: empty buffers are skipped, the others counted and
      placed between the chunk header and its end. */
  method SendBody(inbufs: seq<Octets>, state: SendState, trailers: bool) returns (out: Octets)
    ensures out == EncodeSend(Concat(inbufs), state, trailers)
  {
    var data, size := [], 0;
    for i := 0 to |inbufs|
      invariant data == Concat(inbufs[..i]) && size == |data|
    {
      assert inbufs[..i + 1][..i] == inbufs[..i];
      if |inbufs[i]| != 0 {
        data := data + inbufs[i];
        size := size + |inbufs[i]|;
      }
    }
    assert inbufs[..|inbufs|] == inbufs;
    var prefix, suffix := EncodeChunked(state, size, trailers);
    out := prefix + data + suffix;
  }

  /** Everything but the last send is in progress. */
  function EncodeAll(parts: seq<Octets>): Octets {
    if parts == [] then []
    else EncodeSend(parts[0], InProgress, false) + EncodeAll(parts[1..])
  }

  /** `server-timing: ` */
  const TIMING_NAME: Octets := [115, 101, 114, 118, 101, 114, 45, 116, 105, 109, 105, 110, 103, 58, 32]

  /** What `on_send_complete` writes after the last chunk: nothing when there is no element. */
  function Trailer(elements: Octets): Octets {
    if elements == [] then [] else TIMING_NAME + elements + CRLF + CRLF
  }

  /** The timestamps of a request whose response has the trailer, and the time when its last
      chunk has been written, which the clock does not put at its very beginning. */
  datatype Timing = Timing(stamps: Stamps, end: Time)

  function TrailerOf(timing: Option<Timing>): Octets {
    if timing.None? then [] else Trailer(TimingElements(timing.value.stamps, timing.value.end))
  }

  /** The whole coded body of a response: `timing` is None without the trailer. */
  function Finished(parts: seq<Octets>, last: Octets, timing: Option<Timing>): Octets {
    EncodeAll(parts) + EncodeSend(last, Final, timing.Some?) + TrailerOf(timing)
  }

  // ---------------------------------------------------------------- the parser

  datatype Parsed = Bad | Partial | Complete(body: Octets, rest: Octets)

  function HexPrefix(b: Octets): (k: nat)
    ensures k <= |b| && forall i :: 0 <= i < k ==> IsHex(b[i])
    ensures k < |b| ==> !IsHex(b[k])
  {
    if b == [] || !IsHex(b[0]) then 0
    else
      var k := HexPrefix(b[1..]);
      1 + k
  }

  /** Index of the first CRLF, or the length. */
  function FindCrlf(b: Octets): (k: nat)
    ensures k <= |b| && (k < |b| ==> k + 2 <= |b| && b[k] == CR && b[k + 1] == LF)
  {
    if |b| < 2 then |b|
    else if b[0] == CR && b[1] == LF then 0
    else
      var k := FindCrlf(b[1..]);
      1 + k
  }

  /** trailer-section CRLF */
  function ParseTrailers(b: Octets): Parsed
    decreases |b|
  {
    var k := FindCrlf(b);
    if k == |b| then Partial
    else if k == 0 then Complete([], b[2..])
    else if b[0] == COLON || !(exists i :: 0 <= i < k && b[i] == COLON) then Bad
    else ParseTrailers(b[k + 2..])
  }

  /** chunk-size [ chunk-ext ] CRLF: the size and where the rest starts. */
  datatype Header = NoHeader | ShortHeader | Header(size: nat, next: nat)

  function ParseHeader(b: Octets): (h: Header)
    ensures h.Header? ==> 0 < h.next <= |b|
  {
    var k := HexPrefix(b);
    if k == |b| then ShortHeader
    else if k == 0 || (b[k] != CR && b[k] != SEMICOLON) then NoHeader
    else
      var e := FindCrlf(b[k..]);
      if k + e == |b| then ShortHeader
      else if b[k] == CR && e != 0 then NoHeader
      else Header(HexValue(b[..k]), k + e + 2)
  }

  function Prepend(data: Octets, r: Parsed): Parsed {
    if r.Complete? then Complete(data + r.body, r.rest) else r
  }

  /** What comes first: a chunk and the octets behind it, or the end of the parse. */
  datatype Piece = Stop(result: Parsed) | Chunk(data: Octets, rest: Octets)

  function Next(b: Octets): (p: Piece)
    ensures p.Chunk? ==> |p.rest| < |b|
  {
    match ParseHeader(b)
    case NoHeader => Stop(Bad)
    case ShortHeader => Stop(Partial)
    case Header(size, next) =>
      if size == 0 then Stop(ParseTrailers(b[next..]))
      else if |b| < next + size + 2 then Stop(Partial)
      else if b[next + size..next + size + 2] != CRLF then Stop(Bad)
      else Chunk(b[next..next + size], b[next + size + 2..])
  }

  /** chunked-body = *chunk last-chunk trailer-section CRLF */
  function Parse(b: Octets): Parsed {
    match Next(b)
    case Stop(result) => result
    case Chunk(data, rest) => Prepend(data, Parse(rest))
  }

  // ---------------------------------------------------------------- decoding inverts encoding

  lemma {:induction false} HexPrefixOf(h: Octets, rest: Octets)
    requires forall i :: 0 <= i < |h| ==> IsHex(h[i])
    requires rest != [] ==> !IsHex(rest[0])
    ensures HexPrefix(h + rest) == |h|
  {
    if h != [] {
      assert (h + rest)[1..] == h[1..] + rest;
      HexPrefixOf(h[1..], rest);
    } else {
      assert h + rest == rest;
    }
  }

  lemma ParseHeaderOf(size: nat, rest: Octets)
    ensures ParseHeader(Hex(size) + CRLF + rest) == Header(size, |Hex(size)| + 2)
  {
    var h, b := Hex(size), Hex(size) + CRLF + rest;
    assert b == h + (CRLF + rest);
    HexPrefixOf(h, CRLF + rest);
    assert b[|h|..] == CRLF + rest && b[..|h|] == h;
    HexRoundTrip(size);
  }

  lemma Slices(h: Octets, data: Octets, end: Octets, rest: Octets)
    ensures var b := h + data + (end + rest);
            && |b| == |h| + |data| + |end| + |rest|
            && b[|h|..|h| + |data|] == data
            && b[|h| + |data|..|h| + |data| + |end|] == end
            && b[|h| + |data| + |end|..] == rest
            && b == h + (data + end + rest)
  {
    Middle(h, data, end + rest);
    Middle(h + data, end, rest);
    Associative(h + data, end, rest);
    Associative(data, end, rest);
    Associative(h, data, end + rest);
  }

  lemma ChunkHeader(data: Octets, b: Octets, rest: Octets)
    requires data != [] && b == Prefix(|data|) + data + (CRLF + rest)
    ensures ParseHeader(b) == Header(|data|, |Prefix(|data|)|)
  {
    Slices(Prefix(|data|), data, CRLF, rest);
    ParseHeaderOf(|data|, data + CRLF + rest);
  }

  /** One chunk in front of anything. */
  lemma NextChunk(data: Octets, rest: Octets)
    requires data != []
    ensures Next(Prefix(|data|) + data + (CRLF + rest)) == Chunk(data, rest)
  {
    var h := Prefix(|data|);
    Slices(h, data, CRLF, rest);
    ChunkHeader(data, h + data + (CRLF + rest), rest);
  }

  lemma ParseNext(b: Octets, p: Piece)
    requires p == Next(b)
    ensures Parse(b) == if p.Stop? then p.result else Prepend(p.data, Parse(p.rest))
  {
  }

  lemma ParseChunk(data: Octets, rest: Octets)
    requires data != []
    ensures Parse(Prefix(|data|) + data + (CRLF + rest)) == Prepend(data, Parse(rest))
  {
    NextChunk(data, rest);
    ParseNext(Prefix(|data|) + data + (CRLF + rest), Chunk(data, rest));
  }

  lemma ParseLast(rest: Octets)
    ensures Parse([ZERO] + CRLF + rest) == ParseTrailers(rest)
  {
    assert Hex(0) == [ZERO];
    ParseHeaderOf(0, rest);
    assert ([ZERO] + CRLF + rest)[3..] == rest;
  }

  lemma Regroup(a: Octets, b: Octets, c: Octets, d: Octets, e: Octets)
    ensures (a + b + c) + d + e == a + b + (c + (d + e))
    ensures a + (d + e) == a + d + e
  {
  }

  lemma PrependTwice(a: Octets, b: Octets, r: Parsed)
    ensures Prepend(a, Prepend(b, r)) == Prepend(a + b, r)
    ensures Prepend([], r) == r
  {
    if r.Complete? {
      assert a + (b + r.body) == a + b + r.body;
    }
  }

  /** Sends in progress add their data in front of whatever follows. */
  lemma {:induction false} ParseAll(parts: seq<Octets>, rest: Octets)
    ensures Parse(EncodeAll(parts) + rest) == Prepend(Flatten(parts), Parse(rest))
  {
    if parts == [] {
      assert EncodeAll(parts) + rest == rest;
      PrependTwice([], [], Parse(rest));
    } else {
      var data, more := parts[0], EncodeAll(parts[1..]);
      ParseAll(parts[1..], rest);
      PrependTwice(data, Flatten(parts[1..]), Parse(rest));
      if data == [] {
        assert EncodeSend(data, InProgress, false) == [];
        assert [] + more == more && [] + Flatten(parts[1..]) == Flatten(parts[1..]);
      } else {
        Regroup(Prefix(|data|), data, CRLF, more, rest);
        ParseChunk(data, more + rest);
      }
    }
  }

  function Flatten(parts: seq<Octets>): Octets {
    if parts == [] then [] else parts[0] + Flatten(parts[1..])
  }

  predicate OneLine(b: Octets) {
    forall i :: 0 <= i < |b| ==> b[i] != CR && b[i] != LF
  }

  lemma {:induction false} FindCrlfAfter(line: Octets, rest: Octets)
    requires OneLine(line)
    ensures FindCrlf(line + CRLF + rest) == |line|
  {
    if line == [] {
    } else {
      assert (line + CRLF + rest)[1..] == line[1..] + CRLF + rest;
      FindCrlfAfter(line[1..], rest);
    }
  }

  lemma TimingLine(elements: Octets)
    requires OneLine(elements)
    ensures var line := TIMING_NAME + elements;
            OneLine(line) && 15 <= |line| && line[0] != COLON && line[13] == COLON
  {
  }

  lemma EmptyLineEnds(rest: Octets)
    ensures ParseTrailers(CRLF + rest) == Complete([], rest)
  {
    assert FindCrlf(CRLF + rest) == 0;
    assert (CRLF + rest)[2..] == rest;
  }

  lemma ParseTrailerOf(elements: Octets, rest: Octets)
    requires OneLine(elements) && elements != []
    ensures ParseTrailers(Trailer(elements) + rest) == Complete([], rest)
  {
    TimingLine(elements);
    var line := TIMING_NAME + elements;
    var b := line + CRLF + (CRLF + rest);
    assert Trailer(elements) + rest == b;
    FindCrlfAfter(line, CRLF + rest);
    assert b[13] == line[13];
    assert b[0] == line[0];
    assert b[|line| + 2..] == CRLF + rest;
    EmptyLineEnds(rest);
  }

  lemma Regroup6(p: Octets, d: Octets, c: Octets, z: Octets, fin: Octets, rest: Octets)
    ensures (p + d + (c + z + fin)) + rest == p + d + (c + (z + (fin + rest)))
    ensures (z + fin) + rest == z + (fin + rest)
  {
  }

  function Fin(trailers: bool): Octets {
    if trailers then [] else CRLF
  }

  lemma FinalShape(last: Octets, trailers: bool, rest: Octets)
    ensures var x := [ZERO] + CRLF + (Fin(trailers) + rest);
            EncodeSend(last, Final, trailers) + rest ==
            if last == [] then x else Prefix(|last|) + last + (CRLF + x)
  {
    var z := [ZERO] + CRLF;
    Regroup6(Prefix(|last|), last, CRLF, z, Fin(trailers), rest);
    if last == [] {
      assert EncodeSend(last, Final, trailers) == z + Fin(trailers);
    } else {
      assert Suffix(Final, |last|, trailers) == CRLF + z + Fin(trailers);
    }
  }

  lemma FinalSend(last: Octets, trailers: bool, rest: Octets)
    ensures Parse(EncodeSend(last, Final, trailers) + rest) == Prepend(last, ParseTrailers(Fin(trailers) + rest))
  {
    var x := Fin(trailers) + rest;
    FinalShape(last, trailers, rest);
    ParseLast(x);
    if last == [] {
      PrependTwice([], [], ParseTrailers(x));
    } else {
      ParseChunk(last, [ZERO] + CRLF + x);
    }
  }

  /** A response sent to its end parses to exactly the data that was sent, and leaves the
      octets after it untouched, with the trailer and without. */
  lemma FinishedParses(parts: seq<Octets>, last: Octets, timing: Option<Timing>, rest: Octets)
    requires timing.Some? ==> !IsNull(timing.value.end)
    ensures Parse(Finished(parts, last, timing) + rest) == Complete(Flatten(parts) + last, rest)
  {
    var trailer := TrailerOf(timing);
    var fin := EncodeSend(last, Final, timing.Some?);
    Regroup6([], [], EncodeAll(parts), fin, trailer, rest);
    assert [] + [] + (EncodeAll(parts) + fin + trailer) == EncodeAll(parts) + fin + trailer;
    assert [] + [] + (EncodeAll(parts) + (fin + (trailer + rest))) == EncodeAll(parts) + (fin + (trailer + rest));
    ParseAll(parts, fin + (trailer + rest));
    FinalSend(last, timing.Some?, trailer + rest);
    TrailerEnds(timing, trailer, rest);
    PrependComplete(Flatten(parts), last, rest);
  }

  lemma PrependComplete(a: Octets, b: Octets, rest: Octets)
    ensures Prepend(a, Prepend(b, Complete([], rest))) == Complete(a + b, rest)
  {
    assert a + (b + []) == a + b;
  }

  /** An announced trailer has an element, on one line. */
  lemma TrailerHasElement(t: Timing)
    requires !IsNull(t.end)
    ensures var elements := TimingElements(t.stamps, t.end); elements != [] && OneLine(elements)
  {
    ElementsAtEnd(true, t.stamps, t.end);
    ElementsPlain(true, true, AtEnd(t.stamps, t.end));
  }

  lemma TrailerEnds(timing: Option<Timing>, trailer: Octets, rest: Octets)
    requires timing.Some? ==> !IsNull(timing.value.end)
    requires trailer == TrailerOf(timing)
    ensures ParseTrailers(Fin(timing.Some?) + (trailer + rest)) == Complete([], rest)
  {
    if timing.Some? {
      TrailerHasElement(timing.value);
      ParseTrailerOf(TimingElements(timing.value.stamps, timing.value.end), rest);
      assert [] + (trailer + rest) == trailer + rest;
    } else {
      assert CRLF + (trailer + rest) == CRLF + rest;
      EmptyLineEnds(rest);
    }
  }

  lemma ErrorAfterNothing()
    ensures !Parse(EncodeSend([], Error, false)).Complete?
  {
    var broken := EncodeSend([], Error, false);
    assert broken == CRLF + [49] + CRLF;
    assert HexPrefix(broken) == 0;
  }

  lemma ErrorAfterChunk(last: Octets)
    requires last != []
    ensures !Parse(EncodeSend(last, Error, false)).Complete?
  {
    var one := Hex(1) + CRLF + [];
    assert EncodeSend(last, Error, false) == Prefix(|last|) + last + (CRLF + one);
    ParseChunk(last, one);
    ParseHeaderOf(1, []);
  }

  /** A response that ends in an error is never taken for a complete one, nor is one that is
      still in progress. */
  lemma ErrorNeverCompletes(parts: seq<Octets>, last: Octets)
    ensures !Parse(EncodeAll(parts) + EncodeSend(last, Error, false)).Complete?
    ensures Parse(EncodeAll(parts)) == Partial
  {
    ParseAll(parts, EncodeSend(last, Error, false));
    if last == [] {
      ErrorAfterNothing();
    } else {
      ErrorAfterChunk(last);
    }
    ParseAll(parts, []);
    assert EncodeAll(parts) + [] == EncodeAll(parts);
  }
}
