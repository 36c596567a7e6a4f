/** The Golomb-coded set of `golombset.h`: a list of 64-bit keys is written as the gaps
    between them, each as a unary quotient and a binary remainder, most significant bit first. */
module Golomb {
  import opened Basics
  import opened Options

  const WORD: nat := 0x1_0000_0000_0000_0000

  type Key = x: nat | x < WORD

  function Quotient(v: nat, d: nat): nat
    requires d > 0
  {
    v / d
  }

  /** v >> n */
  function ShiftRight(v: nat, n: nat): nat {
    Quotient(v, Pow2(n))
  }

  // ---------------------------------------------------------------- what is written

  /** The n low bits of v. */
  function Binary(n: nat, v: nat): (r: Bits)
    ensures |r| == n
  {
    if n == 0 then [] else [ShiftRight(v, n - 1) % 2 == 1] + Binary(n - 1, v)
  }

  function ValueBits(fixed: nat, v: nat): (r: Bits)
    ensures |r| == ShiftRight(v, fixed) + 1 + fixed
  {
    Zeros(ShiftRight(v, fixed)) + [true] + Binary(fixed, v)
  }

  /** Unsigned subtraction and addition. */
  function Gap(key: Key, min: Key): Key {
    (key - min) % WORD
  }

  function Plus(v: nat, min: Key): Key {
    (v + min) % WORD
  }

  function Succ(key: Key): Key {
    (key + 1) % WORD
  }

  function SetBits(fixed: nat, keys: seq<Key>, min: Key): Bits {
    if keys == [] then [] else ValueBits(fixed, Gap(keys[0], min)) + SetBits(fixed, keys[1..], Succ(keys[0]))
  }

  /** How many bits the gaps take. */
  function Cost(fixed: nat, keys: seq<Key>, min: Key): nat {
    if keys == [] then 0
    else ShiftRight(Gap(keys[0], min), fixed) + 1 + fixed + Cost(fixed, keys[1..], Succ(keys[0]))
  }

  lemma {:induction false} CostIsLength(fixed: nat, keys: seq<Key>, min: Key)
    ensures |SetBits(fixed, keys, min)| == Cost(fixed, keys, min)
  {
    if keys == [] {
    } else {
      CostIsLength(fixed, keys[1..], Succ(keys[0]));
    }
  }

  // ---------------------------------------------------------------- what is read

  datatype Parsed = End | Value(v: nat, rest: Bits)

  function ParseUnary(bits: Bits, q: nat): (r: Parsed)
    ensures r.Value? ==> |r.rest| < |bits|
  {
    if bits == [] then End else if bits[0] then Value(q, bits[1..]) else ParseUnary(bits[1..], q + 1)
  }

  function Append(v: nat, bit: bool): nat {
    v * 2 + if bit then 1 else 0
  }

  function ParseBinary(n: nat, bits: Bits, v: nat): (r: Parsed)
    ensures r.Value? ==> |r.rest| <= |bits|
  {
    if n == 0 then Value(v, bits)
    else if bits == [] then End
    else ParseBinary(n - 1, bits[1..], Append(v, bits[0]))
  }

  lemma BinaryStep(n: nat, bits: Bits, bit: bool, rest: Bits, v: nat, next: nat)
    requires bits == [bit] + rest && next == Append(v, bit)
    ensures ParseBinary(n + 1, bits, v) == ParseBinary(n, rest, next)
  {
    assert bits[1..] == rest;
  }

  /** The quotient and the remainder, in 64 bits. */
  function Merge(fixed: nat, q: nat, r: nat): Key {
    (r + q * Pow2(fixed)) % WORD
  }

  function ParseValue(fixed: nat, bits: Bits): (r: Parsed)
    ensures r.Value? ==> |r.rest| < |bits|
  {
    var q := ParseUnary(bits, 0);
    if q.End? then End
    else
      var r := ParseBinary(fixed, q.rest, 0);
      if r.End? then End else Value(Merge(fixed, q.v, r.v), r.rest)
  }

  /** None when there are more keys than room for them. */
  function ParseSet(fixed: nat, bits: Bits, min: Key, room: nat): (r: Option<seq<Key>>)
    ensures r.Some? ==> |r.value| <= room
    decreases |bits|
  {
    var v := ParseValue(fixed, bits);
    if v.End? then Some([])
    else if room == 0 then None
    else
      var key := Plus(v.v, min);
      var rest := ParseSet(fixed, v.rest, Succ(key), room - 1);
      if rest.None? then None else Some([key] + rest.value)
  }

  // ---------------------------------------------------------------- reading inverts writing

  lemma {:induction false} UnaryInverts(n: nat, rest: Bits, q: nat)
    ensures ParseUnary(Zeros(n) + [true] + rest, q) == Value(q + n, rest)
  {
    var bits := Zeros(n) + [true] + rest;
    if n == 0 {
      assert bits[1..] == rest;
    } else {
      assert bits[1..] == Zeros(n - 1) + [true] + rest;
      UnaryInverts(n - 1, rest, q + 1);
    }
  }

  /** Zeros alone never make a value. */
  lemma {:induction false} PaddingIsEmpty(n: nat, q: nat)
    ensures ParseUnary(Zeros(n), q) == End
  {
    if n == 0 {
    } else {
      assert Zeros(n)[1..] == Zeros(n - 1);
      PaddingIsEmpty(n - 1, q + 1);
    }
  }

  lemma TopBit(n: nat, v: nat)
    requires n > 0
    ensures v % Pow2(n) == ShiftRight(v, n - 1) % 2 * Pow2(n - 1) + v % Pow2(n - 1)
  {
    var p := Pow2(n - 1);
    var q := v / p;
    assert v == q * p + v % p;
    assert q * p == q / 2 * (2 * p) + q % 2 * p by {
      assert q == q / 2 * 2 + q % 2;
    }
    assert q % 2 * p == if q % 2 == 0 then 0 else p;
    Remainder(v, q / 2, 2 * p, q % 2 * p + v % p);
  }

  /** The top bit joins what has been read, the others follow. */
  lemma Horner(n: nat, v: nat, acc: nat)
    requires n > 0
    ensures (acc * 2 + ShiftRight(v, n - 1) % 2) * Pow2(n - 1) + v % Pow2(n - 1) == acc * Pow2(n) + v % Pow2(n)
  {
    var p, bit := Pow2(n - 1), ShiftRight(v, n - 1) % 2;
    TopBit(n, v);
    assert (acc * 2 + bit) * p == acc * (2 * p) + bit * p;
  }

  lemma {:induction false} BinaryInverts(n: nat, v: nat, rest: Bits, acc: nat)
    ensures ParseBinary(n, Binary(n, v) + rest, acc) == Value(acc * Pow2(n) + v % Pow2(n), rest)
  {
    var bits := Binary(n, v) + rest;
    if n == 0 {
      assert bits == rest;
    } else {
      assert bits[1..] == Binary(n - 1, v) + rest;
      BinaryInverts(n - 1, v, rest, acc * 2 + ShiftRight(v, n - 1) % 2);
      Horner(n, v, acc);
    }
  }

  lemma Split(v: nat, n: nat)
    ensures v % Pow2(n) + ShiftRight(v, n) * Pow2(n) == v
  {
  }

  lemma {:induction false} ValueInverts(fixed: nat, v: Key, rest: Bits)
    ensures ParseValue(fixed, ValueBits(fixed, v) + rest) == Value(v, rest)
  {
    var q, tail := ShiftRight(v, fixed), Binary(fixed, v) + rest;
    assert ValueBits(fixed, v) + rest == Zeros(q) + [true] + tail;
    UnaryInverts(q, tail, 0);
    BinaryInverts(fixed, v, rest, 0);
    Split(v, fixed);
  }

  /** Whatever the order of the keys, and whatever the number of zeros behind them. */
  lemma {:induction false} SetInverts(fixed: nat, keys: seq<Key>, min: Key, pad: nat, room: nat)
    ensures ParseSet(fixed, SetBits(fixed, keys, min) + Zeros(pad), min, room)
            == if |keys| <= room then Some(keys) else None
    decreases |keys|
  {
    var bits := SetBits(fixed, keys, min) + Zeros(pad);
    if keys == [] {
      assert bits == Zeros(pad);
      PaddingIsEmpty(pad, 0);
    } else {
      var gap, tail := Gap(keys[0], min), SetBits(fixed, keys[1..], Succ(keys[0])) + Zeros(pad);
      assert bits == ValueBits(fixed, gap) + tail;
      ValueInverts(fixed, gap, tail);
      GapInverts(keys[0], min);
      if room != 0 {
        SetInverts(fixed, keys[1..], Succ(keys[0]), pad, room - 1);
        assert keys == [keys[0]] + keys[1..];
      }
    }
  }

  lemma GapInverts(key: Key, min: Key)
    ensures Plus(Gap(key, min), min) == key
  {
    assert Gap(key, min) == if key >= min then key - min else key - min + WORD;
  }

  predicate Increasing(keys: seq<Key>) {
    forall i, j :: 0 <= i < j < |keys| ==> keys[i] < keys[j]
  }

  /** In an increasing list the gaps are the differences, with no wrap-around. */
  lemma GapsOfIncreasing(keys: seq<Key>, i: nat)
    requires Increasing(keys) && 0 < i < |keys|
    ensures Gap(keys[i], Succ(keys[i - 1])) == keys[i] - keys[i - 1] - 1
  {
    assert keys[i - 1] < keys[i];
  }

  // ---------------------------------------------------------------- bits of a buffer

  predicate Bit(b: bv8, k: nat)
    requires k < 8
  {
    (b >> k) & 1 == 1
  }

  function BitsOf(s: seq<bv8>): (r: Bits)
    ensures |r| == 8 * |s|
  {
    seq(8 * |s|, i requires 0 <= i < 8 * |s| => Bit(s[i / 8], 7 - i % 8))
  }

  function One(k: nat): bv8
    requires k < 8
  {
    (1 as bv8) << k
  }

  lemma SetBit(b: bv8, k: nat, j: nat)
    requires k < 8 && j < 8
    ensures Bit(b | One(k), j) == (j == k || Bit(b, j))
  {
    assert One(k) == [1, 2, 4, 8, 16, 32, 64, 128][k];
  }

  // ---------------------------------------------------------------- the encoder

  /** `st_golombset_encode_t`; dst is an index into the buffer and starts in front of it. */
  class Encoder {
    const buf: array<bv8>
    var dst: int
    var shift: nat
    ghost var out: Bits

    ghost predicate Valid()
      reads this, buf
    {
      && -1 <= dst < buf.Length && shift < 8 && (dst == -1 ==> shift == 0)
      && |out| == 8 * (dst + 1) - shift
      && BitsOf(buf[..dst + 1]) == out + Zeros(shift)
    }

    constructor (b: array<bv8>)
      ensures Valid() && buf == b && out == []
    {
      buf, dst, shift, out := b, -1, 0, [];
    }

    method EncodeBit(bit: bool) returns (ok: bool)
      requires Valid()
      modifies this, buf
      ensures ok <==> old(|out|) < 8 * buf.Length
      ensures ok ==> Valid() && out == old(out) + [bit]
    {
      if shift == 0 {
        dst := dst + 1;
        if dst == buf.Length {
          return false;
        }
        buf[dst] := 0;
        shift := 8;
        FreshOctet(buf[..dst], out);
        assert buf[..dst + 1] == buf[..dst] + [0];
      }
      ghost var before := buf[..dst + 1];
      shift := shift - 1;
      if bit {
        buf[dst] := buf[dst] | One(shift);
      }
      NextBit(before, buf[..dst + 1], out, shift, bit);
      out := out + [bit];
      return true;
    }

    method EncodeBits(n: nat, value: nat) returns (ok: bool)
      requires Valid()
      modifies this, buf
      ensures ok <==> old(|out|) + n <= 8 * buf.Length
      ensures ok ==> Valid() && out == old(out) + Binary(n, value)
    {
      var bits := n;
      while bits != 0
        invariant Valid() && |out| + bits == old(|out|) + n
        invariant out + Binary(bits, value) == old(out) + Binary(n, value)
      {
        ghost var rest := Binary(bits, value);
        bits := bits - 1;
        ok := EncodeBit(ShiftRight(value, bits) % 2 == 1);
        if !ok {
          return;
        }
        assert rest == [ShiftRight(value, bits) % 2 == 1] + Binary(bits, value);
      }
      return true;
    }

    method EncodeValue(fixed: nat, value: nat) returns (ok: bool)
      requires Valid()
      modifies this, buf
      ensures ok <==> old(|out|) + |ValueBits(fixed, value)| <= 8 * buf.Length
      ensures ok ==> Valid() && out == old(out) + ValueBits(fixed, value)
    {
      var unary: nat := ShiftRight(value, fixed);
      while unary != 0
        invariant Valid() && unary <= ShiftRight(value, fixed)
        invariant out == old(out) + Zeros(ShiftRight(value, fixed) - unary)
        decreases unary
      {
        assert |out| == old(|out|) + ShiftRight(value, fixed) - unary;
        ok := EncodeBit(false);
        if !ok {
          return;
        }
        unary := unary - 1;
      }
      ok := EncodeBit(true);
      if !ok {
        return;
      }
      ok := EncodeBits(fixed, value);
    }
  }

  lemma FreshOctet(s: seq<bv8>, out: Bits)
    requires BitsOf(s) == out
    ensures BitsOf(s + [0]) == out + Zeros(8)
  {
    forall i | 0 <= i < 8 * |s| + 8
      ensures BitsOf(s + [0])[i] == (out + Zeros(8))[i]
    {
      if i < 8 * |s| {
        assert BitsOf(s)[i] == Bit(s[i / 8], 7 - i % 8);
      }
    }
  }

  /** Writing the highest bit not yet in use. */
  lemma NextBit(s: seq<bv8>, t: seq<bv8>, out: Bits, shift: nat, bit: bool)
    requires shift < 8 && |s| > 0 && |out| == 8 * |s| - shift - 1
    requires BitsOf(s) == out + Zeros(shift + 1)
    requires var last := s[|s| - 1]; t == s[|s| - 1 := if bit then last | One(shift) else last]
    ensures BitsOf(t) == out + [bit] + Zeros(shift)
  {
    forall i | 0 <= i < 8 * |s|
      ensures BitsOf(t)[i] == (out + [bit] + Zeros(shift))[i]
    {
      assert BitsOf(s)[i] == Bit(s[i / 8], 7 - i % 8);
      SetBit(s[|s| - 1], shift, 7 - i % 8);
    }
  }

  /** One more key: what has been written and what is to be written make up the same list. */
  lemma OneMore(fixed: nat, keys: seq<Key>, i: nat, min: Key, out: Bits, next: Bits, all: Bits)
    requires i < |keys| && out + SetBits(fixed, keys[i..], min) == all
    requires next == out + ValueBits(fixed, Gap(keys[i], min))
    ensures next + SetBits(fixed, keys[i + 1..], Succ(keys[i])) == all && |next| <= |all|
  {
    assert keys[i..][1..] == keys[i + 1..];
  }

  /** `golombset_encode`; the size that it stores, or None for -1. */
  method EncodeSet(fixed: nat, keys: seq<Key>, buf: array<bv8>) returns (size: Option<nat>)
    modifies buf
    ensures size.Some? <==> Cost(fixed, keys, 0) <= 8 * buf.Length
    ensures size.Some? ==>
              && size.value == (Cost(fixed, keys, 0) + 7) / 8 <= buf.Length && (keys != [] ==> size.value > 0)
              && BitsOf(buf[..size.value]) == SetBits(fixed, keys, 0) + Zeros(8 * size.value - Cost(fixed, keys, 0))
  {
    ghost var all := SetBits(fixed, keys, 0);
    CostIsLength(fixed, keys, 0);
    var ctx := new Encoder(buf);
    var min: Key := 0;
    var i := 0;
    assert keys[0..] == keys;
    while i != |keys|
      invariant ctx.Valid() && ctx.buf == buf && i <= |keys| && fresh(ctx)
      invariant ctx.out + SetBits(fixed, keys[i..], min) == all
      decreases |keys| - i
    {
      ghost var next := ctx.out + ValueBits(fixed, Gap(keys[i], min));
      OneMore(fixed, keys, i, min, ctx.out, next, all);
      var ok := ctx.EncodeValue(fixed, Gap(keys[i], min));
      if !ok {
        return None;
      }
      i, min := i + 1, Succ(keys[i]);
    }
    size := Some(ctx.dst + 1);
  }

  // ---------------------------------------------------------------- the decoder

  /** `st_golombset_decode_t`; src is an index into the buffer. The bits are split into those
      that have been read and the rest. */
  class Decoder {
    const buf: seq<bv8>
    var src: nat
    var shift: nat
    ghost var done: Bits
    ghost var rest: Bits

    ghost predicate Valid()
      reads this
    {
      && src < |buf| && shift <= 8
      && |done| == 8 * src + 8 - shift
      && BitsOf(buf) == done + rest
    }

    constructor (b: seq<bv8>)
      requires |b| > 0
      ensures Valid() && buf == b && rest == BitsOf(b)
    {
      buf, src, shift := b, 0, 8;
      done, rest := [], BitsOf(b);
    }

    /** None stands for -1. */
    method DecodeBit() returns (bit: Option<bool>)
      requires Valid()
      modifies this
      ensures bit.None? <==> old(rest) == []
      ensures bit.Some? ==> Valid() && old(rest) == [bit.value] + rest
    {
      if shift == 0 {
        src := src + 1;
        if src == |buf| {
          return None;
        }
        shift := 8;
      }
      shift := shift - 1;
      assert rest[0] == BitsOf(buf)[|done|] == Bit(buf[src], shift);
      done, rest := done + [rest[0]], rest[1..];
      return Some((buf[src] >> shift) & 1 == 1);
    }

    method DecodeBits(n: nat) returns (value: Option<nat>)
      requires Valid()
      modifies this
      ensures value.None? <==> ParseBinary(n, old(rest), 0).End?
      ensures value.Some? ==> Valid() && ParseBinary(n, old(rest), 0) == Value(value.value, rest)
    {
      ghost var whole := ParseBinary(n, rest, 0);
      var bits: nat, v: nat := n, 0;
      while bits != 0
        invariant Valid() && ParseBinary(bits, rest, v) == whole
      {
        ghost var before, acc := rest, v;
        var bit := DecodeBit();
        if bit.None? {
          return None;
        }
        v := Append(v, bit.value);
        bits := bits - 1;
        BinaryStep(bits, before, bit.value, rest, acc, v);
      }
      return Some(v);
    }

    method DecodeUnary() returns (quotient: Option<nat>)
      requires Valid()
      modifies this
      ensures quotient.None? <==> ParseUnary(old(rest), 0).End?
      ensures quotient.Some? ==> Valid() && ParseUnary(old(rest), 0) == Value(quotient.value, rest)
    {
      var q := 0;
      while true
        invariant Valid() && ParseUnary(rest, q) == ParseUnary(old(rest), 0)
        decreases |rest|
      {
        var bit := DecodeBit();
        if bit.None? {
          return None;
        }
        if bit.value {
          return Some(q);
        }
        q := q + 1;
      }
    }

    method DecodeValue(fixed: nat) returns (value: Option<Key>)
      requires Valid()
      modifies this
      ensures value.None? <==> ParseValue(fixed, old(rest)).End?
      ensures value.Some? ==> Valid() && ParseValue(fixed, old(rest)) == Value(value.value, rest)
    {
      var q := DecodeUnary();
      if q.None? {
        return None;
      }
      var r := DecodeBits(fixed);
      if r.None? {
        return None;
      }
      return Some(Merge(fixed, q.value, r.value));
    }
  }

  /** What `ParseSet` makes of the rest, with the keys read so far in front. */
  function Prepend(keys: seq<Key>, r: Option<seq<Key>>): Option<seq<Key>> {
    if r.None? then None else Some(keys + r.value)
  }

  /** One value read: the keys to come are it and the keys of the rest. */
  lemma OneRead(fixed: nat, bits: Bits, v: nat, rest: Bits, min: Key, room: nat, before: Option<seq<Key>>, after: Option<seq<Key>>)
    requires ParseValue(fixed, bits) == Value(v, rest) && room > 0
    requires before == ParseSet(fixed, bits, min, room)
    requires after == ParseSet(fixed, rest, Succ(Plus(v, min)), room - 1)
    ensures before == Prepend([Plus(v, min)], after)
  {
  }

  lemma PrependTwice(a: seq<Key>, key: Key, r: Option<seq<Key>>)
    ensures Prepend(a, Prepend([key], r)) == Prepend(a + [key], r)
  {
    if r.Some? {
      assert a + ([key] + r.value) == a + [key] + r.value;
    }
  }

  method Store(keys: array<Key>, index: nat, key: Key)
    requires index < keys.Length
    modifies keys
    ensures keys[..index + 1] == old(keys[..index]) + [key]
  {
    keys[index] := key;
  }

  /** `golombset_decode`; the number of keys that it stores, or None for -1. */
  method DecodeSet(fixed: nat, buf: seq<bv8>, keys: array<Key>) returns (num: Option<nat>)
    requires |buf| > 0
    modifies keys
    ensures num.None? <==> ParseSet(fixed, BitsOf(buf), 0, keys.Length).None?
    ensures num.Some? ==> num.value <= keys.Length
    ensures num.Some? ==> ParseSet(fixed, BitsOf(buf), 0, keys.Length) == Some(keys[..num.value])
  {
    ghost var all := ParseSet(fixed, BitsOf(buf), 0, keys.Length);
    ghost var got, future: Option<seq<Key>> := [], all;
    var ctx := new Decoder(buf);
    var index := 0;
    var min: Key := 0;
    assert all.Some? ==> [] + all.value == all.value;
    while true
      invariant ctx.Valid() && ctx.buf == buf && fresh(ctx) && index <= keys.Length && keys[..index] == got
      invariant future == ParseSet(fixed, ctx.rest, min, keys.Length - index) && Prepend(got, future) == all
      decreases |ctx.rest|
    {
      ghost var rest, m, room, before := ctx.rest, min, keys.Length - index, future;
      var value := ctx.DecodeValue(fixed);
      if value.None? {
        break;
      }
      if index == keys.Length {
        return None;
      }
      var key := Plus(value.value, min);
      Store(keys, index, key);
      index := index + 1;
      min := Succ(key);
      future := ParseSet(fixed, ctx.rest, min, keys.Length - index);
      OneRead(fixed, rest, value.value, ctx.rest, m, room, before, future);
      PrependTwice(got, key, future);
      got := got + [key];
    }
    assert got + [] == got;
    return Some(index);
  }

  /** What the encoder stores the decoder loads: the same keys, whenever they fit the buffer and
      the room for keys. */
  method StoreAndLoad(fixed: nat, keys: seq<Key>, buf: array<bv8>, out: array<Key>) returns (num: Option<nat>)
    requires keys != []
    modifies buf, out
    ensures num.Some? <==> Cost(fixed, keys, 0) <= 8 * buf.Length && |keys| <= out.Length
    ensures num.Some? ==> num.value == |keys| && out[..num.value] == keys
  {
    var size := EncodeSet(fixed, keys, buf);
    if size.None? {
      return None;
    }
    SetInverts(fixed, keys, 0, 8 * size.value - Cost(fixed, keys, 0), out.Length);
    num := DecodeSet(fixed, buf[..size.value], out);
  }
}
