/** The code tree that `misc/mkhufftbl.py` builds, the bit-by-bit decoder it stands for,
    and what a Huffman-coded string means (section 5.2 of RFC 7541).

    A code is a sequence of codewords indexed by symbol; nothing here depends on the
    literal table of Appendix B of RFC 7541, only on the properties of it that are
    collected in `HpackCode`. A position in the tree is named by the bits that lead
    to it from the root. */
module HuffmanCode {
  import opened Basics
  import opened Options

  const EOS: nat := 256

  // ---------------------------------------------------------------- codes

  ghost predicate PrefixFree(code: seq<Bits>) {
    forall i, j :: 0 <= i < |code| && 0 <= j < |code| && i != j ==> !(code[i] <= code[j])
  }

  /** No codeword can be added: every bit string is comparable with some codeword. */
  ghost predicate Exhaustive(code: seq<Bits>) {
    forall b: Bits :: Comparable(code, b)
  }

  ghost predicate Comparable(code: seq<Bits>, b: Bits) {
    exists i :: 0 <= i < |code| && (code[i] <= b || b <= code[i])
  }

  predicate AllOnes(b: Bits) {
    forall i :: 0 <= i < |b| ==> b[i]
  }

  function Ones(n: nat): (b: Bits)
    ensures |b| == n && AllOnes(b)
  {
    seq(n, _ => true)
  }

  /** What the table generator and the decoder rely on: 256 octets and EOS, a complete
      prefix-free code, no codeword shorter than a nibble, EOS all ones and longer than
      any legal padding. */
  ghost predicate HpackCode(code: seq<Bits>) {
    && |code| == EOS + 1
    && PrefixFree(code)
    && Exhaustive(code)
    && (forall i :: 0 <= i < |code| ==> 4 <= |code[i]|)
    && AllOnes(code[EOS])
    && 8 <= |code[EOS]|
  }

  // ---------------------------------------------------------------- the tree

  datatype Tree = Empty | Node(term: Option<nat>, left: Tree, right: Tree)

  const FRESH: Tree := Node(None, Empty, Empty)

  function Insert(t: Tree, sym: nat, bits: Bits): Tree
    decreases |bits|
  {
    var n := if t.Empty? then FRESH else t;
    if bits == [] then n.(term := Some(sym))
    else if bits[0] then n.(right := Insert(n.right, sym, bits[1..]))
    else n.(left := Insert(n.left, sym, bits[1..]))
  }

  /** The tree after the codewords of symbols 0, 1, ... have been added in order. */
  function Build(code: seq<Bits>): Tree {
    if code == [] then FRESH
    else Insert(Build(code[..|code| - 1]), |code| - 1, code[|code| - 1])
  }

  function At(t: Tree, p: Bits): Tree
    decreases |p|
  {
    if p == [] || t.Empty? then t
    else At(if p[0] then t.right else t.left, p[1..])
  }

  function TermAt(t: Tree, p: Bits): Option<nat> {
    if At(t, p).Node? then At(t, p).term else None
  }

  /** Every node is either a leaf with a symbol or an inner node with two children. */
  predicate Full(t: Tree) {
    t.Node? &&
    if t.term.Some? then t.left.Empty? && t.right.Empty? else Full(t.left) && Full(t.right)
  }

  predicate InnerAt(t: Tree, p: Bits) {
    At(t, p).Node? && At(t, p).term.None?
  }

  lemma {:induction false} AtSnoc(t: Tree, p: Bits, b: bool)
    requires At(t, p).Node?
    ensures At(t, p + [b]) == if b then At(t, p).right else At(t, p).left
    decreases |p|
  {
    if p == [] {
      assert (p + [b])[1..] == [];
    } else {
      assert (p + [b])[1..] == p[1..] + [b];
      AtSnoc(if p[0] then t.right else t.left, p[1..], b);
    }
  }

  lemma {:induction false} InsertAt(t: Tree, sym: nat, bits: Bits, p: Bits)
    ensures At(Insert(t, sym, bits), p).Node? <==> At(t, p).Node? || p <= bits
    ensures TermAt(Insert(t, sym, bits), p) == if p == bits then Some(sym) else TermAt(t, p)
    decreases |bits|
  {
    var n := if t.Empty? then FRESH else t;
    if bits == [] || p == [] {
    } else {
      var child := if p[0] then n.right else n.left;
      assert p == [p[0]] + p[1..] && bits == [bits[0]] + bits[1..];
      if p[0] == bits[0] {
        InsertAt(child, sym, bits[1..], p[1..]);
      }
    }
  }

  ghost predicate Extends(code: seq<Bits>, p: Bits) {
    exists i :: 0 <= i < |code| && p <= code[i]
  }

  lemma {:induction false} BuildNodeAt(code: seq<Bits>, p: Bits)
    ensures At(Build(code), p).Node? <==> p == [] || Extends(code, p)
  {
    if code == [] {
    } else {
      var n := |code| - 1;
      var front := code[..n];
      assert forall i :: 0 <= i < n ==> front[i] == code[i];
      BuildNodeAt(front, p);
      InsertAt(Build(front), n, code[n], p);
      if Extends(code, p) && !(p <= code[n]) {
        var i :| 0 <= i < |code| && p <= code[i];
        assert front[i] == code[i];
      }
    }
  }

  lemma {:induction false} BuildTermAt(code: seq<Bits>, p: Bits)
    requires PrefixFree(code)
    ensures forall i :: 0 <= i < |code| && code[i] == p ==> TermAt(Build(code), p) == Some(i)
    ensures TermAt(Build(code), p).Some? ==>
              TermAt(Build(code), p).value < |code| && code[TermAt(Build(code), p).value] == p
  {
    if code != [] {
      var n := |code| - 1;
      var front := code[..n];
      assert forall i :: 0 <= i < n ==> front[i] == code[i];
      BuildTermAt(front, p);
      InsertAt(Build(front), n, code[n], p);
      forall i | 0 <= i < n
        ensures code[i] != code[n]
      {
        assert !(code[i] <= code[n]);
      }
      assert Build(code) == Insert(Build(front), n, code[n]);
      assert TermAt(Build(code), p) == if p == code[n] then Some(n) else TermAt(Build(front), p);
    } else {
      assert Build(code) == FRESH;
      assert p != [] ==> At(FRESH, p) == At(Empty, p[1..]) == Empty;
    }
  }

  lemma BuildAt(code: seq<Bits>, p: Bits)
    requires PrefixFree(code)
    ensures At(Build(code), p).Node? <==> p == [] || Extends(code, p)
    ensures forall i :: 0 <= i < |code| && code[i] == p ==> TermAt(Build(code), p) == Some(i)
    ensures TermAt(Build(code), p).Some? ==>
              TermAt(Build(code), p).value < |code| && code[TermAt(Build(code), p).value] == p
  {
    BuildNodeAt(code, p);
    BuildTermAt(code, p);
  }

  /** In a complete code, a position that is not a codeword but leads to one can be left
      both ways. */
  lemma InnerBranches(code: seq<Bits>, p: Bits, b: bool)
    requires PrefixFree(code) && Exhaustive(code)
    requires Extends(code, p) && p !in code
    ensures Extends(code, p + [b])
  {
    var w :| 0 <= w < |code| && p <= code[w];
    assert Comparable(code, p + [b]);
    var i :| 0 <= i < |code| && (code[i] <= p + [b] || p + [b] <= code[i]);
    var c, v := code[i], code[w];
    assert v != p && (i == w || !(c <= v));
  }

  /** The code of Appendix B has no empty codeword, so its tree has an inner root; under
      completeness the tree the generator builds has no missing child and no symbol above
      another one, which is what `_set_node_id` and `_traverse` need to run at all. */
  lemma {:induction false} BuildFull(code: seq<Bits>)
    requires PrefixFree(code) && Exhaustive(code)
    ensures Full(Build(code))
  {
    assert Comparable(code, []);
    FullBelow(code, [], MaxLength(code) + 1);
  }

  ghost function MaxLength(code: seq<Bits>): (m: nat)
    ensures forall i :: 0 <= i < |code| ==> |code[i]| <= m
  {
    if code == [] then 0
    else
      var m := MaxLength(code[..|code| - 1]);
      assert forall i :: 0 <= i < |code| - 1 ==> code[i] == code[..|code| - 1][i];
      if |code[|code| - 1]| > m then |code[|code| - 1]| else m
  }

  lemma {:induction false} FullBelow(code: seq<Bits>, p: Bits, fuel: nat)
    requires PrefixFree(code) && Exhaustive(code) && Extends(code, p)
    requires |p| + fuel == MaxLength(code) + 1
    ensures Full(At(Build(code), p))
    decreases fuel
  {
    var t := Build(code);
    BuildAt(code, p);
    AtSnoc(t, p, false);
    AtSnoc(t, p, true);
    BuildAt(code, p + [false]);
    BuildAt(code, p + [true]);
    if TermAt(t, p).Some? {
    } else {
      assert p !in code;
      InnerBranches(code, p, false);
      InnerBranches(code, p, true);
      FullBelow(code, p + [false], fuel - 1);
      FullBelow(code, p + [true], fuel - 1);
    }
  }

  // ---------------------------------------------------------------- numbering

  function InnerCount(t: Tree): nat {
    if t.Empty? then 0
    else (if t.term.None? then 1 else 0) + InnerCount(t.left) + InnerCount(t.right)
  }

  function SymbolCount(t: Tree): nat {
    if t.Empty? then 0
    else (if t.term.Some? then 1 else 0) + SymbolCount(t.left) + SymbolCount(t.right)
  }

  lemma {:induction false} InsertCount(t: Tree, sym: nat, bits: Bits)
    ensures SymbolCount(Insert(t, sym, bits)) ==
            SymbolCount(t) + if TermAt(t, bits).Some? then 0 else 1
    decreases |bits|
  {
    var n := if t.Empty? then FRESH else t;
    if bits == [] {
    } else {
      InsertCount(if bits[0] then n.right else n.left, sym, bits[1..]);
    }
  }

  lemma {:induction false} BuildCount(code: seq<Bits>)
    requires PrefixFree(code)
    ensures SymbolCount(Build(code)) == |code|
  {
    if code == [] {
    } else {
      var n := |code| - 1;
      var front := code[..n];
      assert forall i :: 0 <= i < n ==> front[i] == code[i];
      BuildCount(front);
      BuildAt(front, code[n]);
      InsertCount(Build(front), n, code[n]);
    }
  }

  lemma {:induction false} FullCount(t: Tree)
    requires Full(t)
    ensures SymbolCount(t) == InnerCount(t) + 1
  {
    if t.term.Some? {
    } else {
      FullCount(t.left);
      FullCount(t.right);
    }
  }

  /** A complete code of 257 symbols needs 256 states, so the state fits an octet. */
  lemma StatesFitOctet(code: seq<Bits>)
    requires HpackCode(code)
    ensures InnerCount(Build(code)) == 256
    ensures Full(Build(code)) && InnerAt(Build(code), [])
  {
    BuildCount(code);
    BuildFull(code);
    FullCount(Build(code));
    BuildAt(code, []);
  }

  /** The number `_set_node_id` gives to the inner node at p: preorder, counted from 0. */
  function IdOf(t: Tree, p: Bits): (id: nat)
    requires Full(t) && InnerAt(t, p)
    ensures id < InnerCount(t)
    decreases |p|
  {
    if p == [] then 0
    else
      assert At(if p[0] then t.right else t.left, p[1..]).Node?;
      if p[0] then 1 + InnerCount(t.left) + IdOf(t.right, p[1..])
      else 1 + IdOf(t.left, p[1..])
  }

  /** The position of the inner node numbered id. */
  function PathOf(t: Tree, id: nat): (p: Bits)
    requires Full(t) && id < InnerCount(t)
    ensures InnerAt(t, p)
  {
    if id == 0 then []
    else if id <= InnerCount(t.left) then
      var p := PathOf(t.left, id - 1);
      assert ([false] + p)[1..] == p;
      [false] + p
    else
      var p := PathOf(t.right, id - 1 - InnerCount(t.left));
      assert ([true] + p)[1..] == p;
      [true] + p
  }

  /** Numbering is one-to-one onto 0..n-1, and the root is 0. */
  lemma {:induction false} IdPath(t: Tree, id: nat)
    requires Full(t) && id < InnerCount(t)
    ensures IdOf(t, PathOf(t, id)) == id
  {
    if id == 0 {
    } else {
      if id <= InnerCount(t.left) {
        IdPath(t.left, id - 1);
        assert ([false] + PathOf(t.left, id - 1))[1..] == PathOf(t.left, id - 1);
      } else {
        IdPath(t.right, id - 1 - InnerCount(t.left));
        var p := PathOf(t.right, id - 1 - InnerCount(t.left));
        assert ([true] + p)[1..] == p;
      }
    }
  }

  lemma {:induction false} PathId(t: Tree, p: Bits)
    requires Full(t) && InnerAt(t, p)
    ensures PathOf(t, IdOf(t, p)) == p
    decreases |p|
  {
    if p == [] {
    } else {
      assert p == [p[0]] + p[1..];
      assert At(if p[0] then t.right else t.left, p[1..]).Node?;
      PathId(if p[0] then t.right else t.left, p[1..]);
    }
  }

  // ---------------------------------------------------------------- bit-by-bit decoding

  datatype Run = Failed | Run(at: Bits, out: seq<nat>)

  const START: Run := Run([], [])

  /** One bit down the tree; a symbol restarts at the root and EOS is an error. */
  function DecodeBit(t: Tree, r: Run, b: bool): Run {
    if r.Failed? then Failed
    else
      match TermAt(t, r.at + [b])
      case None => Run(r.at + [b], r.out)
      case Some(s) => if s == EOS then Failed else Run([], r.out + [s])
  }

  function DecodeBits(t: Tree, r: Run, bits: Bits): Run {
    if bits == [] then r
    else DecodeBit(t, DecodeBits(t, r, bits[..|bits| - 1]), bits[|bits| - 1])
  }

  lemma {:induction false} DecodeAppend(t: Tree, r: Run, a: Bits, b: Bits)
    ensures DecodeBits(t, r, a + b) == DecodeBits(t, DecodeBits(t, r, a), b)
    decreases |b|
  {
    if b == [] {
      assert a + b == a;
    } else {
      assert (a + b)[..|a + b| - 1] == a + b[..|b| - 1];
      DecodeAppend(t, r, a, b[..|b| - 1]);
    }
  }

  function Encode(code: seq<Bits>, syms: seq<nat>): Bits
    requires forall i :: 0 <= i < |syms| ==> syms[i] < |code|
  {
    if syms == [] then []
    else Encode(code, syms[..|syms| - 1]) + code[syms[|syms| - 1]]
  }

  lemma {:induction false} EncodeSnoc(code: seq<Bits>, syms: seq<nat>, s: nat)
    requires (forall i :: 0 <= i < |syms| ==> syms[i] < |code|) && s < |code|
    ensures Encode(code, syms + [s]) == Encode(code, syms) + code[s]
  {
    assert (syms + [s])[..|syms + [s]| - 1] == syms;
  }

  /** Symbols that may be sent: everything but EOS. */
  predicate Sendable(syms: seq<nat>) {
    forall i :: 0 <= i < |syms| ==> syms[i] < EOS
  }

  lemma {:induction false} FullAt(t: Tree, p: Bits)
    requires Full(t) && At(t, p).Node?
    ensures Full(At(t, p))
    decreases |p|
  {
    if p == [] {
    } else {
      FullAt(if p[0] then t.right else t.left, p[1..]);
    }
  }

  /** From an inner position either bit leads to an inner position or completes a codeword. */
  lemma StepFrom(code: seq<Bits>, p: Bits, b: bool)
    requires PrefixFree(code) && Exhaustive(code) && InnerAt(Build(code), p)
    ensures match TermAt(Build(code), p + [b])
            case None => InnerAt(Build(code), p + [b])
            case Some(s) => s < |code| && code[s] == p + [b]
  {
    var t := Build(code);
    BuildFull(code);
    FullAt(t, p);
    AtSnoc(t, p, b);
    BuildAt(code, p + [b]);
  }

  /** No codeword lies strictly above another one. */
  lemma ProperPrefix(code: seq<Bits>, s: nat, k: nat)
    requires PrefixFree(code) && s < |code| && k < |code[s]|
    ensures TermAt(Build(code), code[s][..k]) == None
  {
    BuildAt(code, code[s][..k]);
  }

  lemma CodewordTerm(code: seq<Bits>, s: nat)
    requires PrefixFree(code) && s < |code|
    ensures TermAt(Build(code), code[s]) == Some(s)
  {
    BuildAt(code, code[s]);
  }

  /** Whatever the bit walk has emitted and not yet used up is exactly its input. */
  lemma {:induction false} DecodeSound(code: seq<Bits>, bits: Bits)
    requires HpackCode(code)
    ensures var r := DecodeBits(Build(code), START, bits);
            r.Run? ==> Sendable(r.out) && bits == Encode(code, r.out) + r.at
                       && InnerAt(Build(code), r.at)
  {
    StatesFitOctet(code);
    if bits == [] {
    } else {
      var init, b := bits[..|bits| - 1], bits[|bits| - 1];
      DecodeSound(code, init);
      var r := DecodeBits(Build(code), START, init);
      if r.Run? {
        StepFrom(code, r.at, b);
        SoundStep(code, init, b, r);
      }
    }
  }

  lemma SoundStep(code: seq<Bits>, init: Bits, b: bool, r: Run)
    requires |code| == EOS + 1
    requires r.Run? && Sendable(r.out) && init == Encode(code, r.out) + r.at
    requires TermAt(Build(code), r.at + [b]).Some? ==>
               var s := TermAt(Build(code), r.at + [b]).value; s < |code| && code[s] == r.at + [b]
    ensures var r' := DecodeBit(Build(code), r, b);
            r'.Run? ==> Sendable(r'.out) && init + [b] == Encode(code, r'.out) + r'.at
  {
    assert init + [b] == Encode(code, r.out) + (r.at + [b]);
    match TermAt(Build(code), r.at + [b]) {
      case None =>
      case Some(s) =>
        if s != EOS {
          EncodeSnoc(code, r.out, s);
        }
    }
  }

  lemma NextBitOf(bits: Bits, w: Bits, k: nat)
    requires k < |w|
    ensures bits + w[..k] + [w[k]] == bits + w[..k + 1] && w[..k] + [w[k]] == w[..k + 1]
  {
  }

  lemma DecodeSnoc(t: Tree, r: Run, bits: Bits, b: bool)
    ensures DecodeBits(t, r, bits + [b]) == DecodeBit(t, DecodeBits(t, r, bits), b)
  {
    assert (bits + [b])[..|bits|] == bits;
  }

  /** One bit of a codeword, from where its prefix has led. */
  lemma FeedNext(t: Tree, bits: Bits, out: seq<nat>, w: Bits, k: nat)
    requires k < |w| && DecodeBits(t, START, bits + w[..k]) == Run(w[..k], out)
    ensures DecodeBits(t, START, bits + w[..k + 1]) ==
            match TermAt(t, w[..k + 1])
            case None => Run(w[..k + 1], out)
            case Some(s) => if s == EOS then Failed else Run([], out + [s])
  {
    NextBitOf(bits, w, k);
    DecodeSnoc(t, START, bits + w[..k], w[k]);
  }

  /** Feeding a codeword moves down to it without emitting anything on the way. */
  lemma {:induction false} DecodePrefix(code: seq<Bits>, bits: Bits, out: seq<nat>, s: nat, k: nat)
    requires PrefixFree(code) && s < |code| && k < |code[s]|
    requires DecodeBits(Build(code), START, bits) == Run([], out)
    ensures DecodeBits(Build(code), START, bits + code[s][..k]) == Run(code[s][..k], out)
  {
    if k == 0 {
      assert bits + code[s][..0] == bits;
    } else {
      DecodePrefix(code, bits, out, s, k - 1);
      FeedNext(Build(code), bits, out, code[s], k - 1);
      ProperPrefix(code, s, k);
    }
  }

  /** A whole codeword emits its symbol and returns to the root. */
  lemma DecodeCodeword(code: seq<Bits>, bits: Bits, out: seq<nat>, s: nat)
    requires PrefixFree(code) && s < |code| && code[s] != [] && s != EOS
    requires DecodeBits(Build(code), START, bits) == Run([], out)
    ensures DecodeBits(Build(code), START, bits + code[s]) == Run([], out + [s])
  {
    var w := code[s];
    var k := |w| - 1;
    DecodePrefix(code, bits, out, s, k);
    FeedNext(Build(code), bits, out, w, k);
    assert w[..k + 1] == w;
    CodewordTerm(code, s);
  }

  lemma {:induction false} DecodeEncode(code: seq<Bits>, syms: seq<nat>)
    requires |code| == EOS + 1 && PrefixFree(code) && Sendable(syms)
    requires forall i :: 0 <= i < |code| ==> code[i] != []
    ensures DecodeBits(Build(code), START, Encode(code, syms)) == Run([], syms)
  {
    if syms == [] {
    } else {
      var init, s := syms[..|syms| - 1], syms[|syms| - 1];
      DecodeEncode(code, init);
      DecodeCodeword(code, Encode(code, init), init, s);
      assert init + [s] == syms;
    }
  }

  // ---------------------------------------------------------------- meaning

  /** Section 5.2 of RFC 7541: codewords other than EOS, then at most 7 bits of padding
      taken from the front of EOS. */
  ghost predicate Means(code: seq<Bits>, bits: Bits, syms: seq<nat>)
    requires |code| == EOS + 1
  {
    Sendable(syms) && exists k :: 0 <= k <= 7 && bits == Encode(code, syms) + Ones(k)
  }

  predicate Accepting(p: Bits) {
    |p| <= 7 && AllOnes(p)
  }

  /** The bit walk decides that meaning: it ends at an accepting position with output
      `syms` exactly when the bits mean `syms`. */
  lemma {:induction false} DecodeMeans(code: seq<Bits>, bits: Bits, syms: seq<nat>)
    requires HpackCode(code)
    ensures Means(code, bits, syms) <==>
            var r := DecodeBits(Build(code), START, bits);
            r.Run? && Accepting(r.at) && r.out == syms
  {
    var r := DecodeBits(Build(code), START, bits);
    if Means(code, bits, syms) {
      var k :| 0 <= k <= 7 && bits == Encode(code, syms) + Ones(k);
      DecodeEncode(code, syms);
      DecodePrefix(code, Encode(code, syms), syms, EOS, k);
      assert code[EOS][..k] == Ones(k);
    }
    if r.Run? && Accepting(r.at) && r.out == syms {
      DecodeSound(code, bits);
      assert r.at == Ones(|r.at|);
    }
  }

  /** A coded string has one meaning at most. */
  lemma MeaningUnique(code: seq<Bits>, bits: Bits, a: seq<nat>, b: seq<nat>)
    requires HpackCode(code) && Means(code, bits, a) && Means(code, bits, b)
    ensures a == b
  {
    DecodeMeans(code, bits, a);
    DecodeMeans(code, bits, b);
  }
}
