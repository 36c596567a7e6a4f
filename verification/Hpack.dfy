/** The Huffman decoder and encoder of `lib/http2/hpack.c`, run on the generated table. */
module Hpack {
  import opened Basics
  import opened Options
  import opened HuffmanCode
  import opened HuffmanTable


  // ---------------------------------------------------------------- octets as bits

  /** Most significant bit first. */
  function OctetBits(b: Octet): (r: Bits)
    ensures |r| == 8
  {
    Nibble(b / 16) + Nibble(b % 16)
  }

  function ToBits(src: seq<Octet>): (r: Bits)
    ensures |r| == 8 * |src|
  {
    if src == [] then [] else ToBits(src[..|src| - 1]) + OctetBits(src[|src| - 1])
  }

  // ---------------------------------------------------------------- huffdecode4

  datatype Decoder = Error | Decoder(state: nat, dst: seq<nat>, maybeEos: bool, seen: bv8)

  function Lookup(table: seq<seq<Entry>>, d: Decoder, nib: nat): Decoder
    requires nib < 16
    requires d.Decoder? ==> d.state < |table| && |table[d.state]| == 16
  {
    if d.Error? then Error
    else
      var e := table[d.state][nib];
      if e.flags & FAIL != 0 then Error
      else if e.flags & SYM != 0 then
        Decoder(e.state, d.dst + [e.sym], e.flags & ACCEPTED != 0, d.seen | (e.flags & INVALID_CHARS))
      else Decoder(e.state, d.dst, e.flags & ACCEPTED != 0, d.seen)
  }

  lemma EntryFlags(t: Tree, s: Step)
    requires Full(t) && InnerAt(t, []) && StepInTree(t, s)
    ensures var e := EntryOf(t, s);
            && (e.flags & FAIL != 0 <==> s.Fail?)
            && (s.Step? ==>
                  && InnerAt(t, Restart(t, s.at))
                  && e.state == IdOf(t, Restart(t, s.at))
                  && (e.flags & SYM != 0 <==> s.out.Some?)
                  && (s.out.Some? ==> e.sym == s.out.value)
                  && (e.flags & ACCEPTED != 0 <==> Accepting(Restart(t, s.at)))
                  && e.flags & INVALID_CHARS == SymFlags(s.out) & INVALID_CHARS)
  {
  }

  // ---------------------------------------------------------------- simulation

  /** The character classes seen so far, as the driver accumulates them. */
  function Seen(dst: seq<nat>): bv8 {
    if dst == [] then 0
    else Seen(dst[..|dst| - 1]) | (SymFlags(Some(dst[|dst| - 1])) & INVALID_CHARS)
  }

  /** The table decoder is where the bit-by-bit decoder is. */
  predicate Tracks(t: Tree, d: Decoder, r: Run)
    requires Full(t)
  {
    if r.Failed? then d.Error?
    else
      && InnerAt(t, r.at)
      && d == Decoder(IdOf(t, r.at), r.out, Accepting(r.at), Seen(r.out))
  }

  /** What the generator's tree must satisfy for its table to be usable. */
  ghost predicate Ready(t: Tree) {
    Full(t) && InnerAt(t, []) && NoShortCodeword(t)
  }

  lemma HpackReady(code: seq<Bits>)
    requires HpackCode(code)
    ensures Ready(Build(code))
  {
    StatesFitOctet(code);
    HpackNoShort(code);
  }

  /** The table of a code, as the generator prints it. */
  ghost function TableOf(code: seq<Bits>): seq<seq<Entry>>
    requires HpackCode(code)
  {
    HpackReady(code);
    Table(Build(code))
  }

  predicate InTable(table: seq<seq<Entry>>, d: Decoder) {
    d.Decoder? ==> d.state < |table| && |table[d.state]| == 16
  }

  lemma TracksInTable(t: Tree, d: Decoder, r: Run)
    requires Full(t) && InnerAt(t, []) && Tracks(t, d, r)
    ensures InTable(Table(t), d)
  {
  }

  lemma NibbleTracks(t: Tree, d: Decoder, r: Run, nib: nat)
    requires Ready(t) && nib < 16 && InTable(Table(t), d)
    requires Tracks(t, d, r)
    ensures Tracks(t, Lookup(Table(t), d, nib), DecodeBits(t, r, Nibble(nib)))
    ensures InTable(Table(t), Lookup(Table(t), d, nib))
  {
    if r.Failed? {
      FailedStays(t, Nibble(nib));
    } else {
      var s := Walk(t, r.at, None, Nibble(nib));
      PathId(t, r.at);
      assert Table(t)[d.state][nib] == Cell(t, r.at, nib);
      WalkInTree(t, r.at, None, Nibble(nib));
      EntryFlags(t, s);
      LongCodewordsOneSymbol(t, r.at, None, Nibble(nib));
      assert r.out + [] == r.out;
      WalkRefines(t, r.at, None, Nibble(nib), r.out);
    }
    TracksInTable(t, Lookup(Table(t), d, nib), DecodeBits(t, r, Nibble(nib)));
  }

  /** The table decoder is where the bit-by-bit decoder is after `bits`. */
  ghost predicate Follows(t: Tree, d: Decoder, bits: Bits) {
    Ready(t) && Tracks(t, d, DecodeBits(t, START, bits)) && InTable(Table(t), d)
  }

  lemma NibbleFollows(t: Tree, d: Decoder, bits: Bits, nib: nat)
    requires Follows(t, d, bits) && nib < 16
    ensures Follows(t, Lookup(Table(t), d, nib), bits + Nibble(nib))
  {
    NibbleTracks(t, d, DecodeBits(t, START, bits), nib);
    DecodeAppend(t, START, bits, Nibble(nib));
  }

  // ---------------------------------------------------------------- h2o_hpack_decode_huffman

  datatype Soft = Clean | InvalidName | InvalidValue
  datatype Decoded = Malformed | UpperCaseInName | Decoded(dst: seq<nat>, soft: Soft)

  predicate ValueValidAsWhole(s: seq<nat>) {
    |s| != 0 ==> s[0] != 0x20 && s[0] != 0x09 && s[|s| - 1] != 0x20 && s[|s| - 1] != 0x09
  }

  function Validate(dst: seq<nat>, seen: bv8, isName: bool): Decoded {
    if isName then
      if |dst| == 0 then Decoded(dst, InvalidName)
      else if seen & INVALID_FOR_HEADER_NAME != 0 && dst[0] != ':' as nat then
        if seen & UPPER_CASE_CHAR != 0 then UpperCaseInName else Decoded(dst, InvalidName)
      else Decoded(dst, Clean)
    else if seen & INVALID_FOR_HEADER_VALUE != 0 || !ValueValidAsWhole(dst) then Decoded(dst, InvalidValue)
    else Decoded(dst, Clean)
  }

  lemma TwoNibblesFollow(t: Tree, d: Decoder, bits: Bits, hi: nat, lo: nat)
    requires Follows(t, d, bits) && hi < 16 && lo < 16
    ensures var d1 := Lookup(Table(t), d, hi);
            InTable(Table(t), d1) && Follows(t, Lookup(Table(t), d1, lo), bits + (Nibble(hi) + Nibble(lo)))
  {
    NibbleFollows(t, d, bits, hi);
    NibbleFollows(t, Lookup(Table(t), d, hi), bits + Nibble(hi), lo);
    Associative(bits, Nibble(hi), Nibble(lo));
  }

  lemma ToBitsNext(src: seq<Octet>, i: nat)
    requires i < |src|
    ensures ToBits(src[..i + 1]) == ToBits(src[..i]) + (Nibble(src[i] / 16) + Nibble(src[i] % 16))
  {
    assert src[..i + 1][..i] == src[..i];
  }

  /** The decoding loop: two lookups per octet, stop at the first failing entry. */
  method RunTable(ghost t: Tree, table: seq<seq<Entry>>, src: seq<Octet>) returns (d: Decoder, ghost i: nat)
    requires Ready(t) && table == Table(t)
    ensures i <= |src| && (d.Decoder? ==> i == |src|)
    ensures Follows(t, d, ToBits(src[..i]))
    ensures d.Decoder? ==> |d.dst| <= 2 * |src|
  {
    d := Decoder(0, [], true, 0);
    var k := 0;
    ghost var bits := ToBits(src[..0]);
    while k < |src| && d.Decoder?
      invariant 0 <= k <= |src| && bits == ToBits(src[..k])
      invariant d.Decoder? ==> |d.dst| <= 2 * k
      invariant Follows(t, d, bits)
    {
      var hi, lo := src[k] / 16, src[k] % 16;
      TwoNibblesFollow(t, d, bits, hi, lo);
      ToBitsNext(src, k);
      d := Lookup(table, d, hi);
      d := Lookup(table, d, lo);
      bits := bits + (Nibble(hi) + Nibble(lo));
      k := k + 1;
    }
    i := k;
  }

  /** Decodes `src` as the server does, rejecting unless the last entry was accepting. With
      the generated table it rejects exactly the strings that have no meaning, and returns
      the meaning of the others. */
  method DecodeHuffman(ghost code: seq<Bits>, table: seq<seq<Entry>>, src: seq<Octet>, isName: bool)
    returns (r: Decoded)
    requires HpackCode(code) && table == TableOf(code)
    ensures Correct(code, src, isName, r)
    ensures r.Decoded? ==> |r.dst| <= 2 * |src|
  {
    HpackReady(code);
    var d, i := RunTable(Build(code), table, src);
    DecidedByPrefix(code, src, i, d);
    Verdict(code, src, d, isName);
    if d.Error? || !d.maybeEos {
      r := Malformed;
    } else {
      r := Validate(d.dst, d.seen, isName);
    }
  }

  ghost predicate Correct(code: seq<Bits>, src: seq<Octet>, isName: bool, r: Decoded)
    requires |code| == EOS + 1
  {
    if r == Malformed then forall syms: seq<nat> :: !Means(code, ToBits(src), syms)
    else exists syms: seq<nat> :: Means(code, ToBits(src), syms) && r == Validate(syms, Seen(syms), isName)
  }

  ghost predicate Decides(code: seq<Bits>, src: seq<Octet>, d: Decoder)
    requires |code| == EOS + 1
  {
    && (forall syms: seq<nat> :: Means(code, ToBits(src), syms) <==>
                                 d.Decoder? && d.maybeEos && syms == d.dst)
    && (d.Decoder? ==> d.seen == Seen(d.dst))
  }

  lemma Verdict(code: seq<Bits>, src: seq<Octet>, d: Decoder, isName: bool)
    requires |code| == EOS + 1 && Decides(code, src, d)
    ensures Correct(code, src, isName,
                    if d.Error? || !d.maybeEos then Malformed else Validate(d.dst, d.seen, isName))
  {
    if d.Decoder? && d.maybeEos {
      assert Means(code, ToBits(src), d.dst);
    }
  }

  lemma FailedPrefix(t: Tree, src: seq<Octet>, i: nat)
    requires i <= |src| && DecodeBits(t, START, ToBits(src[..i])) == Failed
    ensures DecodeBits(t, START, ToBits(src)) == Failed
  {
    ToBitsAppend(src[..i], src[i..]);
    assert src[..i] + src[i..] == src;
    DecodeAppend(t, START, ToBits(src[..i]), ToBits(src[i..]));
    FailedStays(t, ToBits(src[i..]));
  }

  /** Once the walk has failed no continuation has a meaning. */
  lemma DecidedByPrefix(code: seq<Bits>, src: seq<Octet>, i: nat, d: Decoder)
    requires HpackCode(code) && i <= |src|
    requires Follows(Build(code), d, ToBits(src[..i]))
    requires d.Decoder? ==> i == |src|
    ensures Decides(code, src, d)
  {
    if d.Error? {
      FailedPrefix(Build(code), src, i);
    } else {
      assert src[..i] == src;
    }
    forall syms: seq<nat>
      ensures Means(code, ToBits(src), syms) <==> d.Decoder? && d.maybeEos && syms == d.dst
    {
      DecodeMeans(code, ToBits(src), syms);
    }
  }

  lemma {:induction false} ToBitsAppend(a: seq<Octet>, b: seq<Octet>)
    ensures ToBits(a + b) == ToBits(a) + ToBits(b)
    decreases |b|
  {
    if b == [] {
      assert a + b == a;
    } else {
      var k := |b| - 1;
      assert (a + b)[..|a + b| - 1] == a + b[..k];
      ToBitsAppend(a, b[..k]);
    }
  }

  // ---------------------------------------------------------------- upper case in names

  lemma {:induction false} SeenIsInvalidOnly(dst: seq<nat>)
    ensures Seen(dst) & UPPER_CASE_CHAR == 0
    ensures Seen(dst) & INVALID_FOR_HEADER_NAME != 0 <==> exists i :: 0 <= i < |dst| && !ValidInName(dst[i])
    ensures Seen(dst) & INVALID_FOR_HEADER_VALUE != 0 <==> exists i :: 0 <= i < |dst| && !ValidInValue(dst[i])
  {
    if dst == [] {
    } else {
      var k := |dst| - 1;
      var init := dst[..k];
      SeenIsInvalidOnly(init);
      assert forall i :: 0 <= i < k ==> init[i] == dst[i];
      SeenStep(Seen(init), dst[k]);
    }
  }

  lemma SeenStep(seen: bv8, c: nat)
    requires seen & UPPER_CASE_CHAR == 0
    ensures var s := seen | (SymFlags(Some(c)) & INVALID_CHARS);
            && s & UPPER_CASE_CHAR == 0
            && (s & INVALID_FOR_HEADER_NAME != 0 <==> seen & INVALID_FOR_HEADER_NAME != 0 || !ValidInName(c))
            && (s & INVALID_FOR_HEADER_VALUE != 0 <==> seen & INVALID_FOR_HEADER_VALUE != 0 || !ValidInValue(c))
  {
  }

  /** The driver keeps only the two "invalid" bits of an entry, so the upper-case error it
      tests for is never raised: an upper-case letter in a coded name is one more invalid
      character. The outcome depends on the decoded characters alone. */
  lemma ValidateMeaning(dst: seq<nat>, isName: bool)
    ensures Validate(dst, Seen(dst), isName) == Decoded(dst,
      if isName then
        if |dst| == 0 || (dst[0] != ':' as nat && exists i :: 0 <= i < |dst| && !ValidInName(dst[i]))
        then InvalidName else Clean
      else
        if (exists i :: 0 <= i < |dst| && !ValidInValue(dst[i])) || !ValueValidAsWhole(dst)
        then InvalidValue else Clean)
  {
    SeenIsInvalidOnly(dst);
  }

  /** An input where the documented hard error does not happen. */
  lemma UpperCaseOnlySoft()
    ensures UpperCase('A' as nat)
    ensures Validate(['A' as nat], Seen(['A' as nat]), true) == Decoded(['A' as nat], InvalidName)
  {
    ValidateMeaning(['A' as nat], true);
    assert !ValidInName(['A' as nat][0]);
  }
}
