/** `h2o_hpack_encode_huffman` of `lib/http2/hpack.c`, and its round trip with the decoder.

    The 64-bit accumulator is a word of 64 bits, most significant first, so that shifts,
    bitwise-or and truncation to an octet are what the machine does. */
module HpackEncode {
  import opened Basics
  import opened Options
  import opened HuffmanCode
  import opened HuffmanTable
  import opened Hpack

  // ---------------------------------------------------------------- bits as octets

  function Val(b: Bits): (v: nat)
    ensures v < Pow2(|b|)
  {
    if b == [] then 0
    else (if b[0] then Pow2(|b| - 1) else 0) + Val(b[1..])
  }

  lemma {:induction false} BitsOfVal(b: Bits)
    ensures BitsOf(Val(b), |b|) == b
  {
    if b == [] {
    } else {
      BitsOfVal(b[1..]);
      assert b == [b[0]] + b[1..];
    }
  }

  function PackOctet(b: Bits): (o: Octet)
    requires |b| == 8
  {
    assert Pow2(4) == 16;
    16 * Val(b[..4]) + Val(b[4..])
  }

  lemma OctetBitsPack(b: Bits)
    requires |b| == 8
    ensures OctetBits(PackOctet(b)) == b
  {
    var hi, lo := b[..4], b[4..];
    var o := PackOctet(b);
    assert Pow2(4) == 16;
    assert o / 16 == Val(hi) && o % 16 == Val(lo);
    BitsOfVal(hi);
    BitsOfVal(lo);
    assert b == hi + lo;
  }

  lemma ToBitsPush(dst: seq<Octet>, b: Bits)
    requires |b| == 8
    ensures ToBits(dst + [PackOctet(b)]) == ToBits(dst) + b
  {
    assert (dst + [PackOctet(b)])[..|dst|] == dst;
    OctetBitsPack(b);
  }

  lemma TakeDrop(a: Bits, p: Bits, n: nat)
    requires n <= |p|
    ensures a + p[..n] + p[n..] == a + p
  {
    assert p == p[..n] + p[n..];
  }

  /** An octet goes from the bits that are pending to the output. */
  lemma PushFirst(dst: seq<Octet>, b: Bits, pending: Bits)
    requires |b| == 8 <= |pending| && pending[..8] == b
    ensures ToBits(dst + [PackOctet(b)]) + pending[8..] == ToBits(dst) + pending
  {
    ToBitsPush(dst, b);
    TakeDrop(ToBits(dst), pending, 8);
  }

  /** The last octet goes out with its padding. */
  lemma PushLast(dst: seq<Octet>, b: Bits, pending: Bits, pad: Bits)
    requires |b| == 8 && b == pending + pad
    ensures ToBits(dst + [PackOctet(b)]) == ToBits(dst) + pending + pad
  {
    ToBitsPush(dst, b);
    Associative(ToBits(dst), pending, pad);
  }

  // ---------------------------------------------------------------- the accumulator

  type Word = w: Bits | |w| == 64 witness seq(64, _ => false)

  function Or(a: Word, b: Word): (r: Word)
    ensures forall i :: 0 <= i < 64 ==> r[i] == (a[i] || b[i])
  {
    seq(64, i requires 0 <= i < 64 => a[i] || b[i])
  }

  /** A codeword shifted left by `shift`. */
  function Shifted(code: Bits, shift: nat): (w: Word)
    requires |code| + shift <= 64
  {
    Zeros(64 - |code| - shift) + code + Zeros(shift)
  }

  function TopOctet(w: Word): (b: Bits)
    ensures |b| == 8
  {
    w[24..32]
  }

  function ShiftOut(w: Word): (r: Word) {
    w[8..] + Zeros(8)
  }

  /** The low 40 bits of the accumulator are the pending bits followed by zeros. */
  predicate Holds(w: Word, pending: Bits) {
    |pending| <= 40 && w[24..] == pending + Zeros(40 - |pending|)
  }

  lemma OrAppends(w: Word, pending: Bits, code: Bits)
    requires Holds(w, pending) && |pending| + |code| <= 40
    ensures Holds(Or(w, Shifted(code, 40 - |pending| - |code|)), pending + code)
  {
    var s := Shifted(code, 40 - |pending| - |code|);
    var r, v := Or(w, s), pending + code + Zeros(40 - |pending| - |code|);
    assert w[24..] == pending + Zeros(40 - |pending|);
    forall i | 0 <= i < 40 ensures r[24..][i] == v[i] {
      assert w[24 + i] == w[24..][i];
    }
  }

  lemma ShiftDrops(w: Word, pending: Bits)
    requires Holds(w, pending) && 8 <= |pending|
    ensures TopOctet(w) == pending[..8]
    ensures Holds(ShiftOut(w), pending[8..])
  {
    assert w[24..] == pending + Zeros(40 - |pending|);
    assert TopOctet(w) == w[24..][..8];
    var r, v := ShiftOut(w), pending[8..] + Zeros(40 - |pending[8..]|);
    forall i | 0 <= i < 40 ensures r[24..][i] == v[i] {
      if i < 32 {
        assert r[24 + i] == w[32 + i] == w[24..][8 + i];
      }
    }
  }

  // ---------------------------------------------------------------- the encoder

  function PaddingLength(n: nat): (k: nat)
    ensures k <= 7 && (n + k) % 8 == 0
  {
    (8 - n % 8) % 8
  }

  predicate ShortCode(code: seq<Bits>) {
    forall i :: 0 <= i < |code| ==> |code[i]| <= 32
  }

  lemma {:induction false} EncodePrefixLength(code: seq<Bits>, syms: seq<nat>, i: nat)
    requires (forall k :: 0 <= k < |syms| ==> syms[k] < |code|) && i <= |syms|
    ensures |Encode(code, syms[..i])| <= |Encode(code, syms)|
    decreases |syms|
  {
    if i < |syms| {
      var k := |syms| - 1;
      EncodePrefixLength(code, syms[..k], i);
      assert syms[..k][..i] == syms[..i];
    } else {
      assert syms[..i] == syms;
    }
  }

  /** Moves whole octets from the accumulator to dst; stops with `full` when dst has grown to
      `limit` octets. */
  method Flush(limit: nat, dst0: seq<Octet>, w0: Word, left0: nat, ghost pending0: Bits)
    returns (dst: seq<Octet>, w: Word, left: nat, full: bool, ghost pending: Bits)
    requires left0 <= 40 && |pending0| == 40 - left0 && Holds(w0, pending0)
    requires |dst0| < limit
    ensures ToBits(dst) + pending == ToBits(dst0) + pending0
    ensures full ==> |dst| == limit
    ensures !full ==> |dst| < limit && 32 < left <= 40 && |pending| == 40 - left && Holds(w, pending)
  {
    dst, w, left, full, pending := dst0, w0, left0, false, pending0;
    while left <= 32
      invariant left <= 40 && |pending| == 40 - left && Holds(w, pending)
      invariant ToBits(dst) + pending == ToBits(dst0) + pending0
      invariant |dst| < limit && !full
      decreases 40 - left
    {
      ShiftDrops(w, pending);
      PushFirst(dst, TopOctet(w), pending);
      dst := dst + [PackOctet(TopOctet(w))];
      w := ShiftOut(w);
      left := left + 8;
      pending := pending[8..];
      if |dst| == limit {
        full := true;
        return;
      }
    }
  }

  /** Output so far plus pending bits are the coded form of the symbols read so far. */
  ghost predicate Encoding(all: Bits, dst: seq<Octet>, w: Word, left: nat, pending: Bits) {
    && 32 < left <= 40 && |pending| == 40 - left && Holds(w, pending)
    && ToBits(dst) + pending == all
  }

  method AddSymbol(limit: nat, c: Bits, dst0: seq<Octet>, w0: Word, left0: nat, ghost pending0: Bits, ghost all: Bits)
    returns (dst: seq<Octet>, w: Word, left: nat, full: bool, ghost pending: Bits)
    requires Encoding(all, dst0, w0, left0, pending0) && |c| <= 32 && |dst0| < limit
    ensures full ==> |dst| == limit && 8 * limit <= |all + c|
    ensures !full ==> |dst| < limit && Encoding(all + c, dst, w, left, pending)
  {
    OrAppends(w0, pending0, c);
    Associative(ToBits(dst0), pending0, c);
    dst, w, left, full, pending :=
      Flush(limit, dst0, Or(w0, Shifted(c, left0 - |c|)), left0 - |c|, pending0 + c);
    assert ToBits(dst) + pending == all + c;
  }

  /** Pads the last octet with ones. */
  method Finish(dst0: seq<Octet>, w: Word, left: nat, ghost pending: Bits, ghost all: Bits)
    returns (dst: seq<Octet>)
    requires Encoding(all, dst0, w, left, pending)
    ensures ToBits(dst) == all + Ones(PaddingLength(|all|))
    ensures |dst| <= |dst0| + 1
  {
    dst := dst0;
    if left != 40 {
      FinalOctet(w, pending, left);
      var last := TopOctet(Or(w, Shifted(Ones(left), 0)));
      PushLast(dst, last, pending, Ones(8 - |pending|));
      dst := dst + [PackOctet(last)];
    }
    assert |all| == 8 * |dst0| + |pending|;
  }

  lemma EncodeNext(code: seq<Bits>, src: seq<Octet>, i: nat)
    requires |code| == EOS + 1 && i < |src|
    ensures Encode(code, src[..i]) + code[src[i]] == Encode(code, src[..i + 1])
  {
    EncodeSnoc(code, src[..i], src[i]);
    assert src[..i] + [src[i]] == src[..i + 1];
  }

  /** Encodes src, failing when the result would not be shorter than src itself. */
  method EncodeHuffman(code: seq<Bits>, src: seq<Octet>) returns (r: Option<seq<Octet>>)
    requires |code| == EOS + 1 && ShortCode(code)
    ensures r.Some? <==> |Encode(code, src)| + PaddingLength(|Encode(code, src)|) < 8 * |src|
    ensures r.Some? ==> ToBits(r.value) == Encode(code, src) + Ones(PaddingLength(|Encode(code, src)|))
  {
    var dst: seq<Octet>, w: Word, left: nat := [], Zeros(64), 40;
    ghost var pending: Bits := [];
    assert w[24..] == pending + Zeros(40);
    var i := 0;
    while i < |src|
      invariant 0 <= i <= |src|
      invariant Encoding(Encode(code, src[..i]), dst, w, left, pending)
      invariant |src| == 0 || |dst| < |src|
    {
      EncodeNext(code, src, i);
      var full;
      dst, w, left, full, pending :=
        AddSymbol(|src|, code[src[i]], dst, w, left, pending, Encode(code, src[..i]));
      i := i + 1;
      if full {
        EncodePrefixLength(code, src, i);
        return None;
      }
    }
    assert src[..i] == src;
    dst := Finish(dst, w, left, pending, Encode(code, src));
    if |dst| == |src| {
      return None;
    }
    return Some(dst);
  }

  lemma FinalOctet(w: Word, pending: Bits, left: nat)
    requires Holds(w, pending) && 32 < left < 40 && |pending| == 40 - left
    ensures TopOctet(Or(w, Shifted(Ones(left), 0))) == pending + Ones(8 - |pending|)
  {
    var r := Or(w, Shifted(Ones(left), 0));
    OrAppends(w, pending, Ones(left));
    assert TopOctet(r) == r[24..][..8];
  }

  /** Whatever the encoder produces decodes to its input, for every input it accepts. */
  lemma RoundTrip(code: seq<Bits>, src: seq<Octet>, coded: seq<Octet>, isName: bool, r: Decoded)
    requires HpackCode(code)
    requires ToBits(coded) == Encode(code, src) + Ones(PaddingLength(|Encode(code, src)|))
    requires Correct(code, coded, isName, r)
    ensures r == Validate(src, Seen(src), isName)
  {
    assert Means(code, ToBits(coded), src);
    if r != Malformed {
      var syms: seq<nat> :| Means(code, ToBits(coded), syms) && r == Validate(syms, Seen(syms), isName);
      MeaningUnique(code, ToBits(coded), syms, src);
    }
  }
}
