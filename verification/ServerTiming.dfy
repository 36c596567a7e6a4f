/** The elements of the server-timing trailer (`lib/core/util.c`), from the timestamps of a
    request at the end of its response. */
module ServerTiming {
  import opened Basics

  // ---------------------------------------------------------------- timestamps

  /** struct timeval; one that has not been taken has no seconds. */
  datatype Time = Time(sec: int, usec: int)

  predicate IsNull(t: Time) {
    t.sec == 0
  }

  datatype Stamps = Stamps(
    requestBegin: Time, responseStart: Time, responseEnd: Time,
    proxyRequestBegin: Time, proxyResponseStart: Time, proxyResponseEnd: Time)

  /** `h2o_timeval_subtract`, in microseconds. */
  function Subtract(from: Time, until: Time): int {
    (ToInt(until.sec) - ToInt(from.sec)) * 1_000_000 + (ToInt(until.usec) - ToInt(from.usec))
  }

  /** What `on_send_complete` does to the timestamps when the last write has succeeded. */
  function AtEnd(s: Stamps, now: Time): Stamps {
    var t := s.(responseEnd := now);
    if IsNull(t.responseStart) then t.(responseStart := now) else t
  }

  // ---------------------------------------------------------------- durations

  /** Division as in C. */
  function Truncate(a: int, b: int): int
    requires b > 0
  {
    if a >= 0 then a / b else -(-a / b)
  }

  const DUR: Octets := [100, 117, 114, 61]   // dur=
  const DOT: Octet := 46
  const MINUS: Octet := 45

  function Signed(v: int): Octets {
    if v >= 0 then Decimal(v) else [MINUS] + Decimal(-v)
  }

  function DigitAt(usec: int, denom: nat): int
    requires denom > 0
  {
    Truncate(ToInt(usec), denom)
  }

  function RestAt(usec: int, denom: nat): int
    requires denom > 0
  {
    usec - DigitAt(usec, denom) * denom
  }

  /** '0' + d as a char. */
  function Character(d: int): Octet {
    (48 + d) % 256
  }

  /** The digits behind the point: what is left at 100, 10 and 1, up to the last that is not 0. */
  function Fraction(usec: int, denom: nat): Octets
    decreases denom
  {
    if denom == 0 then []
    else
      var rest := RestAt(usec, denom);
      [Character(DigitAt(usec, denom))] + if rest == 0 then [] else Fraction(rest, denom / 10)
  }

  function Milliseconds(usec: int): int {
    ToInt(Truncate(usec, 1000))
  }

  function Decimals(rest: int): Octets {
    if rest == 0 then [] else [DOT] + Fraction(rest, 100)
  }

  function Duration(usec: int): Octets {
    var msec := Milliseconds(usec);
    var rest := usec - msec * 1000;
    DUR + Signed(msec) + Decimals(rest)
  }

  /** `stringify_duration` */
  method StringifyDuration(duration: int) returns (buf: Octets)
    ensures buf == Duration(duration)
  {
    var usec := duration;
    var msec := ToInt(Truncate(usec, 1000));
    usec := usec - msec * 1000;
    buf := DUR + Signed(msec);
    if usec != 0 {
      var digits := StringifyFraction(usec, 100);
      buf := buf + [DOT] + digits;
    }
  }

  method StringifyFraction(fraction: int, first: nat) returns (buf: Octets)
    ensures buf == Fraction(fraction, first)
  {
    ghost var all := Fraction(fraction, first);
    var usec, denom := fraction, first;
    buf := [];
    assert buf + all == all;
    while denom != 0
      invariant denom >= 0 && buf + Fraction(usec, denom) == all
      decreases denom
    {
      NextDigit(buf, usec, denom);
      buf := buf + [Character(DigitAt(usec, denom))];
      usec := RestAt(usec, denom);
      if usec == 0 {
        return;
      }
      denom := denom / 10;
    }
    assert buf + [] == buf;
  }

  lemma NextDigit(buf: Octets, usec: int, denom: nat)
    requires denom > 0
    ensures var digit, rest := [Character(DigitAt(usec, denom))], RestAt(usec, denom);
            buf + Fraction(usec, denom) == buf + digit + if rest == 0 then [] else Fraction(rest, denom / 10)
  {
    var digit, rest := [Character(DigitAt(usec, denom))], RestAt(usec, denom);
    assert Fraction(usec, denom) == digit + if rest == 0 then [] else Fraction(rest, denom / 10);
  }

  predicate IsPlain(c: Octet) {
    32 <= c < 127
  }

  predicate AllPlain(b: Octets) {
    forall i :: 0 <= i < |b| ==> IsPlain(b[i])
  }

  /** Casts ignore multiples of 2^32. */
  lemma CastShift(v: int, r: int, k: int)
    requires -0x8000_0000 <= r < 0x8000_0000 && v == r + k * 0x1_0000_0000
    ensures ToInt(v) == r
  {
  }

  lemma DigitsPlain(rest: int, denom: int)
    requires denom == 100 || denom == 10 || denom == 1
    requires -10 * denom < ToInt(rest) < 10 * denom
    ensures -9 <= DigitAt(rest, denom) <= 9 && IsPlain(Character(DigitAt(rest, denom)))
    ensures -denom < ToInt(RestAt(rest, denom)) < denom
  {
    var d := DigitAt(rest, denom);
    CastShift(RestAt(rest, denom), ToInt(rest) - d * denom, (rest + 0x8000_0000) / 0x1_0000_0000);
  }

  /** Three characters at most, and none that could end a line; below zero they are not digits,
      but still plain. */
  lemma FractionPlain(rest: int, first: nat)
    requires first == 100 && -1000 < ToInt(rest) < 1000
    ensures AllPlain(Fraction(rest, first)) && |Fraction(rest, first)| <= 3
  {
    DigitsPlain(rest, first);
    var r := RestAt(rest, first);
    if r != 0 {
      DigitsPlain(r, first / 10);
      var q := RestAt(r, first / 10);
      if q != 0 {
        DigitsPlain(q, first / 100);
        assert Fraction(RestAt(q, first / 100), first / 1000) == [];
        assert Fraction(q, first / 100) == [Character(DigitAt(q, first / 100))];
      }
      assert Fraction(r, first / 10) == [Character(DigitAt(r, first / 10))] + if q == 0 then [] else Fraction(q, first / 100);
    }
  }

  /** What digits behind a point are worth, the first in units of denom. */
  function FractionValue(digits: Octets, denom: nat): int {
    if digits == [] then 0 else (digits[0] - 48) * denom + FractionValue(digits[1..], denom / 10)
  }

  /** The digits are worth the number, and the last is not zero. */
  predicate Writes(digits: Octets, value: int, denom: nat) {
    && digits != [] && digits[|digits| - 1] != 48
    && (forall i :: 0 <= i < |digits| ==> IsDigit(digits[i]))
    && FractionValue(digits, denom) == value
  }

  lemma DigitWrites(d: Octet, digits: Octets, rest: int, denom: nat)
    requires IsDigit(d) && (if rest == 0 then digits == [] && d != 48 else Writes(digits, rest, denom / 10))
    ensures Writes([d] + digits, (d - 48) * denom + rest, denom)
  {
    var all := [d] + digits;
    assert all[1..] == digits;
    assert all[|all| - 1] == if digits == [] then d else digits[|digits| - 1];
  }

  lemma SmallCast(v: nat)
    requires v < 0x8000_0000
    ensures ToInt(v) == v
  {
  }

  lemma SmallDigit(usec: nat, denom: nat)
    requires (denom == 100 || denom == 10 || denom == 1) && usec < 10 * denom
    ensures DigitAt(usec, denom) == usec / denom < 10
    ensures Character(usec / denom) == 48 + usec / denom
    ensures RestAt(usec, denom) == usec % denom
  {
    SmallCast(usec);
  }

  lemma {:induction false} FractionWrites(usec: nat, denom: nat)
    requires (denom == 100 || denom == 10 || denom == 1) && 0 < usec < 10 * denom
    ensures Writes(Fraction(usec, denom), usec, denom)
    decreases denom
  {
    var d, rest := usec / denom, usec % denom;
    SmallDigit(usec, denom);
    if rest == 0 {
      DigitWrites(48 + d, [], rest, denom);
      assert Fraction(usec, denom) == [48 + d] + [];
    } else {
      FractionWrites(rest, denom / 10);
      DigitWrites(48 + d, Fraction(rest, denom / 10), rest, denom);
    }
  }

  lemma SmallMilliseconds(usec: nat)
    requires usec < 0x8000_0000 * 1000
    ensures Milliseconds(usec) == usec / 1000
  {
    SmallCast(usec / 1000);
  }

  /** A duration that fits is printed as its milliseconds and, behind a point, the digits of
      what is left, without zeros at the end. */
  lemma DurationReads(usec: nat)
    requires usec < 0x8000_0000 * 1000
    ensures usec % 1000 == 0 ==> Duration(usec) == DUR + Decimal(usec / 1000)
    ensures usec % 1000 != 0 ==>
              exists f :: Writes(f, usec % 1000, 100) && Duration(usec) == DUR + Decimal(usec / 1000) + ([DOT] + f)
  {
    SmallMilliseconds(usec);
    var rest := usec % 1000;
    if rest != 0 {
      FractionWrites(rest, 100);
      assert Decimals(rest) == [DOT] + Fraction(rest, 100);
    }
  }

  function Pow10(k: nat): (r: nat)
    ensures r >= 1
  {
    if k == 0 then 1 else 10 * Pow10(k - 1)
  }

  lemma {:induction false} DecimalLength(v: nat, k: nat)
    requires k >= 1 && v < Pow10(k)
    ensures |Decimal(v)| <= k
  {
    if v < 10 {
    } else {
      assert k > 1 by {
        assert Pow10(0) == 1;
      }
      DecimalLength(v / 10, k - 1);
    }
  }

  /** Whatever the cast makes of the milliseconds, what is left is less than one of them, up to
      a multiple of 2^32. */
  lemma RestOfMilliseconds(usec: int)
    ensures -1000 < ToInt(usec - Milliseconds(usec) * 1000) < 1000
  {
    var m := Truncate(usec, 1000);
    assert -1000 < usec - m * 1000 < 1000;
    var k := (m + 0x8000_0000) / 0x1_0000_0000;
    assert ToInt(m) == m - k * 0x1_0000_0000;
    CastShift(usec - ToInt(m) * 1000, usec - m * 1000, k * 1000);
  }

  lemma SignedPlain(v: int)
    requires -0x8000_0000 <= v < 0x8000_0000
    ensures AllPlain(Signed(v)) && |Signed(v)| <= 11
  {
    var size: nat := if v >= 0 then v else -v;
    assert Pow10(10) == 10_000_000_000;
    DecimalLength(size, 10);
  }

  lemma DecimalsPlain(rest: int)
    requires -1000 < ToInt(rest) < 1000
    ensures AllPlain(Decimals(rest)) && |Decimals(rest)| <= 4
  {
    FractionPlain(rest, 100);
  }

  lemma PlainConcat(a: Octets, b: Octets)
    requires AllPlain(a) && AllPlain(b)
    ensures AllPlain(a + b)
  {
  }

  /** A duration is plain text of at most 19 octets. */
  lemma DurationPlain(usec: int)
    ensures AllPlain(Duration(usec)) && |Duration(usec)| <= 19
  {
    var msec := Milliseconds(usec);
    RestOfMilliseconds(usec);
    SignedPlain(msec);
    DecimalsPlain(usec - msec * 1000);
    PlainConcat(DUR, Signed(msec));
    PlainConcat(DUR + Signed(msec), Decimals(usec - msec * 1000));
  }

  // ---------------------------------------------------------------- elements

  const RESPONSE: Octets := [114, 101, 115, 112, 111, 110, 115, 101]
  const TOTAL: Octets := [116, 111, 116, 97, 108]
  const PROXY: Octets := [112, 114, 111, 120, 121, DOT]
  const SEMICOLON: Octets := [59, 32]
  const COMMA: Octets := [44, 32]

  /** `emit_server_timing_element` */
  function Emit(dst: Octets, name: Octets, from: Time, until: Time): Octets {
    if IsNull(from) || IsNull(until) then dst
    else (if dst == [] then [] else dst + COMMA) + name + SEMICOLON + Duration(Subtract(from, until))
  }

  function Basic(s: Stamps): Octets {
    Emit(Emit([], RESPONSE, s.responseStart, s.responseEnd), TOTAL, s.requestBegin, s.responseEnd)
  }

  function Proxy(dst: Octets, s: Stamps): Octets {
    Emit(Emit(dst, PROXY + RESPONSE, s.proxyResponseStart, s.proxyResponseEnd),
         PROXY + TOTAL, s.proxyRequestBegin, s.proxyResponseEnd)
  }

  /** The elements of `h2o_build_server_timing_trailer`; basic and proxy are the two bits of
      send_server_timing. */
  function Elements(basic: bool, proxy: bool, s: Stamps): Octets {
    var dst := if basic then Basic(s) else [];
    if proxy then Proxy(dst, s) else dst
  }

  /** The filter of `lib/handler/server_timing.c` sets both bits, and nothing else sets any. */
  function TimingElements(s: Stamps, now: Time): Octets {
    Elements(true, true, AtEnd(s, now))
  }

  lemma EmitPlain(dst: Octets, name: Octets, from: Time, until: Time)
    requires AllPlain(dst) && AllPlain(name)
    ensures AllPlain(Emit(dst, name, from, until))
    ensures |Emit(dst, name, from, until)| <= |dst| + 2 + |name| + 2 + 19
    ensures dst == [] ==> |Emit(dst, name, from, until)| <= |name| + 2 + 19
  {
    DurationPlain(Subtract(from, until));
  }

  lemma BasicPlain(s: Stamps)
    ensures AllPlain(Basic(s)) && |Basic(s)| <= 57
  {
    var a := Emit([], RESPONSE, s.responseStart, s.responseEnd);
    EmitPlain([], RESPONSE, s.responseStart, s.responseEnd);
    EmitPlain(a, TOTAL, s.requestBegin, s.responseEnd);
  }

  lemma ProxyPlain(dst: Octets, s: Stamps)
    requires AllPlain(dst)
    ensures AllPlain(Proxy(dst, s)) && |Proxy(dst, s)| <= |dst| + 71
  {
    var b := Emit(dst, PROXY + RESPONSE, s.proxyResponseStart, s.proxyResponseEnd);
    EmitPlain(dst, PROXY + RESPONSE, s.proxyResponseStart, s.proxyResponseEnd);
    EmitPlain(b, PROXY + TOTAL, s.proxyRequestBegin, s.proxyResponseEnd);
  }

  /** The elements are plain text and fit the room that is reserved for them. */
  lemma ElementsPlain(basic: bool, proxy: bool, s: Stamps)
    ensures AllPlain(Elements(basic, proxy, s)) && |Elements(basic, proxy, s)| <= 128
  {
    BasicPlain(s);
    ProxyPlain(if basic then Basic(s) else [], s);
  }

  /** With the basic bit there is an element at the end of every response: its end has just
      been taken, and its start at the latest with it. */
  lemma ElementsAtEnd(proxy: bool, s: Stamps, now: Time)
    requires !IsNull(now)
    ensures Elements(true, proxy, AtEnd(s, now)) != []
  {
    var t := AtEnd(s, now);
    assert !IsNull(t.responseStart) && !IsNull(t.responseEnd);
    assert Emit([], RESPONSE, t.responseStart, t.responseEnd) != [];
  }
}
