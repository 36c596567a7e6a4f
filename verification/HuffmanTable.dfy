/** The 4-bits-at-a-time transition table of `misc/mkhufftbl.py`, and the proof that running
    it is the same as walking the code tree bit by bit. */
module HuffmanTable {
  import opened Basics
  import opened Options
  import opened HuffmanCode

  /** The n low bits of k, most significant first. */
  function BitsOf(k: nat, n: nat): (b: Bits)
    requires k < Pow2(n)
    ensures |b| == n
  {
    if n == 0 then []
    else if k < Pow2(n - 1) then [false] + BitsOf(k, n - 1)
    else [true] + BitsOf(k - Pow2(n - 1), n - 1)
  }

  // ---------------------------------------------------------------- walking a few bits

  /** Where a walk of a few bits ends: a node, and the symbol completed on the way if any. */
  datatype Step = Fail | Step(at: Bits, out: Option<nat>)

  function Restart(t: Tree, p: Bits): Bits {
    if TermAt(t, p).Some? then [] else p
  }

  function Emit(out: Option<nat>, term: Option<nat>): Option<nat> {
    if term.Some? then term else out
  }

  /** One entry computed by `_traverse`. */
  function Walk(t: Tree, p: Bits, out: Option<nat>, bits: Bits): Step
    decreases |bits|
  {
    if bits == [] then
      if out == Some(EOS) then Fail else Step(p, out)
    else
      var q := Restart(t, p) + [bits[0]];
      Walk(t, q, Emit(out, TermAt(t, q)), bits[1..])
  }

  /** The assertion inside `_traverse` holds all along the walk. */
  predicate OneSymbol(t: Tree, p: Bits, out: Option<nat>, bits: Bits)
    decreases |bits|
  {
    bits == [] ||
    var q := Restart(t, p) + [bits[0]];
    && (TermAt(t, q).Some? ==> out.None?)
    && OneSymbol(t, q, Emit(out, TermAt(t, q)), bits[1..])
  }

  ghost predicate NoShortCodeword(t: Tree) {
    forall p :: TermAt(t, p).Some? ==> 4 <= |p|
  }

  lemma HpackNoShort(code: seq<Bits>)
    requires HpackCode(code)
    ensures NoShortCodeword(Build(code))
  {
    forall p | TermAt(Build(code), p).Some? ensures 4 <= |p| {
      BuildAt(code, p);
    }
  }

  lemma {:induction false} LongCodewordsOneSymbol(t: Tree, p: Bits, out: Option<nat>, bits: Bits)
    requires NoShortCodeword(t) && |bits| <= 4
    requires out.Some? ==> |Restart(t, p)| + |bits| < 4
    ensures OneSymbol(t, p, out, bits)
    decreases |bits|
  {
    if bits == [] {
    } else {
      var q := Restart(t, p) + [bits[0]];
      LongCodewordsOneSymbol(t, q, Emit(out, TermAt(t, q)), bits[1..]);
    }
  }

  lemma {:induction false} AboveIsInner(t: Tree, p: Bits, k: nat)
    requires Full(t) && At(t, p).Node? && k < |p|
    ensures InnerAt(t, p[..k])
    decreases |p|
  {
    var child := if p[0] then t.right else t.left;
    assert At(child, p[1..]).Node?;
    if k == 0 {
    } else {
      AboveIsInner(child, p[1..], k - 1);
      assert p[..k][1..] == p[1..][..k - 1];
    }
  }

  /** Walking a codeword again after a symbol has been completed trips the assertion. */
  lemma {:induction false} SecondSymbolFails(t: Tree, w: Bits, k: nat, p: Bits, out: Option<nat>, rest: Bits)
    requires Full(t) && TermAt(t, w).Some? && k < |w|
    requires Restart(t, p) == w[..k] && out.Some?
    ensures !OneSymbol(t, p, out, w[k..] + rest)
    decreases |w| - k
  {
    var bits := w[k..] + rest;
    var q := w[..k] + [bits[0]];
    assert q == w[..k + 1];
    assert bits[1..] == w[k + 1..] + rest;
    if k + 1 == |w| {
      assert q == w;
    } else {
      AboveIsInner(t, w, k + 1);
      SecondSymbolFails(t, w, k + 1, q, out, rest);
    }
  }

  /** Starting just above a short codeword, one nibble can hold two symbols. */
  lemma ShortCodewordTwoSymbols(t: Tree, w: Bits) returns (p: Bits, bits: Bits)
    requires Full(t) && InnerAt(t, []) && TermAt(t, w).Some? && |w| < 4
    ensures At(t, p).Node? && |bits| == 4 && !OneSymbol(t, p, None, bits)
  {
    var k := |w| - 1;
    AboveIsInner(t, w, k);
    p := w[..k];
    bits := [w[k]] + w + Ones(3 - |w|);
    assert p + [w[k]] == w;
    assert bits[1..] == w[0..] + Ones(3 - |w|);
    SecondSymbolFails(t, w, 0, w, TermAt(t, w), Ones(3 - |w|));
  }

  /** The generator's "at most one symbol per nibble" assertion never fails, from any node,
      if and only if no codeword is shorter than four bits. */
  lemma AssertionHoldsIffLongCodewords(t: Tree)
    requires Full(t) && InnerAt(t, [])
    ensures (forall p: Bits, bits: Bits :: At(t, p).Node? && |bits| == 4 ==> OneSymbol(t, p, None, bits))
            <==> NoShortCodeword(t)
  {
    if NoShortCodeword(t) {
      forall p: Bits, bits: Bits | At(t, p).Node? && |bits| == 4 ensures OneSymbol(t, p, None, bits) {
        LongCodewordsOneSymbol(t, p, None, bits);
      }
    } else {
      var w :| TermAt(t, w).Some? && |w| < 4;
      var p, bits := ShortCodewordTwoSymbols(t, w);
    }
  }

  // ---------------------------------------------------------------- a nibble refines four bits

  function Outputs(out: Option<nat>): seq<nat> {
    if out.Some? then [out.value] else []
  }

  /** The bit-by-bit state that a walk in progress stands for. */
  function Stands(t: Tree, p: Bits, out: Option<nat>, before: seq<nat>): Run {
    if out == Some(EOS) then Failed else Run(Restart(t, p), before + Outputs(out))
  }

  lemma {:induction false} FailedStays(t: Tree, bits: Bits)
    ensures DecodeBits(t, Failed, bits) == Failed
  {
    if bits == [] {
    } else {
      FailedStays(t, bits[..|bits| - 1]);
    }
  }

  /** A walk that starts anywhere with at most one symbol ahead of it is the bit decoder. */
  lemma {:induction false} WalkRefines(t: Tree, p: Bits, out: Option<nat>, bits: Bits, before: seq<nat>)
    requires TermAt(t, []) == None
    requires OneSymbol(t, p, out, bits)
    ensures DecodeBits(t, Stands(t, p, out, before), bits) ==
            match Walk(t, p, out, bits)
            case Fail => Failed
            case Step(q, o) => Stands(t, q, o, before)
    decreases |bits|
  {
    if bits == [] {
    } else {
      var q := Restart(t, p) + [bits[0]];
      var out' := Emit(out, TermAt(t, q));
      var r := Stands(t, p, out, before);
      WalkRefines(t, q, out', bits[1..], before);
      DecodeAppend(t, r, [bits[0]], bits[1..]);
      assert [bits[0]] + bits[1..] == bits;
      assert DecodeBits(t, r, [bits[0]]) == DecodeBit(t, r, bits[0]) by {
        assert [bits[0]][..0] == [];
      }
      if out == Some(EOS) {
        assert DecodeBit(t, r, bits[0]) == Stands(t, q, out', before);
      } else {
        assert DecodeBit(t, r, bits[0]) == Stands(t, q, out', before) by {
          assert before + [] == before;
        }
      }
    }
  }

  /** A walk never leaves the tree, and the symbols it reports are symbols of the tree. */
  lemma {:induction false} WalkInTree(t: Tree, p: Bits, out: Option<nat>, bits: Bits)
    requires Full(t) && InnerAt(t, []) && At(t, p).Node?
    requires out.Some? ==> exists w :: TermAt(t, w) == out
    ensures match Walk(t, p, out, bits)
            case Fail => true
            case Step(q, o) =>
              && At(t, q).Node?
              && (o.Some? ==> o.value != EOS && exists w :: TermAt(t, w) == o)
    decreases |bits|
  {
    if bits == [] {
    } else {
      var p0 := Restart(t, p);
      var q := p0 + [bits[0]];
      FullAt(t, p0);
      AtSnoc(t, p0, bits[0]);
      WalkInTree(t, q, Emit(out, TermAt(t, q)), bits[1..]);
    }
  }

  // ---------------------------------------------------------------- the printed table

  const ACCEPTED: bv8 := 1
  const SYM: bv8 := 2
  const FAIL: bv8 := 4
  const INVALID_FOR_HEADER_NAME: bv8 := 8
  const INVALID_FOR_HEADER_VALUE: bv8 := 16
  const UPPER_CASE_CHAR: bv8 := 32
  const INVALID_CHARS: bv8 := INVALID_FOR_HEADER_NAME | INVALID_FOR_HEADER_VALUE

  predicate ValidInName(c: nat) {
    || c == 33 || 35 <= c <= 39 || 42 <= c <= 43 || 45 <= c <= 46 || 48 <= c <= 57
    || 94 <= c <= 122 || c == 124 || c == 126
  }

  predicate ValidInValue(c: nat) {
    c == 9 || 32 <= c <= 126 || 128 <= c
  }

  predicate UpperCase(c: nat) {
    65 <= c <= 90
  }

  datatype Entry = Entry(state: nat, flags: bv8, sym: nat)

  function SymFlags(sym: Option<nat>): bv8 {
    if sym.None? then 0
    else
      SYM
      | (if ValidInName(sym.value) then 0 else INVALID_FOR_HEADER_NAME)
      | (if ValidInValue(sym.value) then 0 else INVALID_FOR_HEADER_VALUE)
      | (if UpperCase(sym.value) then UPPER_CASE_CHAR else 0)
  }

  /** One initializer printed by `_print_transition_table`, with the node given by its id
      (None for a leaf) and its accept mark. */
  function PrintEntry(failed: bool, id: Option<nat>, accept: bool, sym: Option<nat>): Entry {
    var out := if sym.Some? then sym.value else 0;
    if failed then Entry(0, SymFlags(sym) | FAIL, out)
    else if id.None? then Entry(0, SymFlags(sym) | ACCEPTED, out)
    else Entry(id.value, if accept then SymFlags(sym) | ACCEPTED else SymFlags(sym), out)
  }

  predicate StepInTree(t: Tree, s: Step) {
    s.Step? ==> At(t, s.at).Node?
  }

  function EntryOf(t: Tree, s: Step): Entry
    requires Full(t) && StepInTree(t, s)
  {
    match s
    case Fail => PrintEntry(true, None, false, None)
    case Step(p, out) =>
      if InnerAt(t, p) then PrintEntry(false, Some(IdOf(t, p)), Accepting(p), out)
      else PrintEntry(false, None, false, out)
  }

  function Nibble(k: nat): (b: Bits)
    requires k < 16
    ensures |b| == 4
  {
    assert Pow2(4) == 16;
    BitsOf(k, 4)
  }

  /** The entry for nibble k in the row of the node at p. */
  function Cell(t: Tree, p: Bits, k: nat): Entry
    requires Full(t) && InnerAt(t, []) && At(t, p).Node? && k < 16
  {
    WalkInTree(t, p, None, Nibble(k));
    EntryOf(t, Walk(t, p, None, Nibble(k)))
  }

  function Row(t: Tree, p: Bits): (row: seq<Entry>)
    requires Full(t) && InnerAt(t, []) && At(t, p).Node?
    ensures |row| == 16
  {
    seq(16, k requires 0 <= k < 16 => Cell(t, p, k))
  }

  /** The whole table: row n belongs to the inner node numbered n. */
  function Table(t: Tree): (rows: seq<seq<Entry>>)
    requires Full(t) && InnerAt(t, [])
    ensures |rows| == InnerCount(t)
  {
    seq(InnerCount(t), n requires 0 <= n < InnerCount(t) => Row(t, PathOf(t, n)))
  }

  // ---------------------------------------------------------------- the order of generation

  /** The entries `_traverse` appends, left child before right child. */
  function Walks(t: Tree, p: Bits, out: Option<nat>, n: nat): (s: seq<Step>)
    ensures |s| == Pow2(n)
    decreases n
  {
    if n == 0 then [Walk(t, p, out, [])]
    else
      var l, r := Restart(t, p) + [false], Restart(t, p) + [true];
      Walks(t, l, Emit(out, TermAt(t, l)), n - 1) + Walks(t, r, Emit(out, TermAt(t, r)), n - 1)
  }

  lemma WalksHalf(t: Tree, p: Bits, out: Option<nat>, n: nat, k: nat, b: bool, rest: nat)
    requires n > 0 && k < Pow2(n) && (b <==> Pow2(n - 1) <= k) && rest == (if b then k - Pow2(n - 1) else k)
    ensures rest < Pow2(n - 1)
    ensures var q := Restart(t, p) + [b];
            Walks(t, p, out, n)[k] == Walks(t, q, Emit(out, TermAt(t, q)), n - 1)[rest]
  {
  }

  lemma WalkFirst(t: Tree, p: Bits, out: Option<nat>, bits: Bits, b: bool, rest: Bits)
    requires bits == [b] + rest
    ensures var q := Restart(t, p) + [b];
            Walk(t, p, out, bits) == Walk(t, q, Emit(out, TermAt(t, q)), rest)
  {
    assert bits[1..] == rest;
  }

  lemma FirstBitOf(k: nat, n: nat, b: bool, rest: nat)
    requires n > 0 && k < Pow2(n) && (b <==> Pow2(n - 1) <= k) && rest == (if b then k - Pow2(n - 1) else k)
    ensures BitsOf(k, n) == [b] + BitsOf(rest, n - 1)
  {
  }

  /** Entry k is the walk of the n bits of k, most significant first. */
  lemma {:induction false} WalksAt(t: Tree, p: Bits, out: Option<nat>, n: nat, k: nat)
    requires k < Pow2(n)
    ensures Walks(t, p, out, n)[k] == Walk(t, p, out, BitsOf(k, n))
    decreases n
  {
    if n == 0 {
    } else {
      var b := Pow2(n - 1) <= k;
      var q, rest := Restart(t, p) + [b], if b then k - Pow2(n - 1) else k;
      WalksHalf(t, p, out, n, k, b, rest);
      WalksAt(t, q, Emit(out, TermAt(t, q)), n - 1, rest);
      FirstBitOf(k, n, b, rest);
      WalkFirst(t, p, out, BitsOf(k, n), b, BitsOf(rest, n - 1));
    }
  }

  lemma RowWalks(t: Tree, p: Bits, k: nat)
    requires Full(t) && InnerAt(t, []) && At(t, p).Node? && k < 16
    ensures |Walks(t, p, None, 4)| == 16
    ensures StepInTree(t, Walks(t, p, None, 4)[k])
    ensures Row(t, p)[k] == EntryOf(t, Walks(t, p, None, 4)[k])
  {
    assert Pow2(4) == 16;
    WalksAt(t, p, None, 4, k);
    WalkInTree(t, p, None, Nibble(k));
  }

  /** The rows below p, in the order `_print_transition_table` visits them. */
  function Preorder(t: Tree, sub: Tree, p: Bits): (rows: seq<seq<Entry>>)
    requires Full(t) && InnerAt(t, []) && Full(sub) && At(t, p) == sub
    ensures |rows| == InnerCount(sub)
    decreases sub
  {
    if sub.term.Some? then []
    else
      AtSnoc(t, p, false);
      AtSnoc(t, p, true);
      [Row(t, p)] + Preorder(t, sub.left, p + [false]) + Preorder(t, sub.right, p + [true])
  }

  /** Which child the node numbered n is below, and its number there. */
  function Descend(sub: Tree, n: nat): (r: (bool, nat))
    requires Full(sub) && 0 < n < InnerCount(sub)
    ensures r.1 < InnerCount(if r.0 then sub.right else sub.left)
  {
    if n <= InnerCount(sub.left) then (false, n - 1) else (true, n - 1 - InnerCount(sub.left))
  }

  lemma PathOfDescend(sub: Tree, n: nat)
    requires Full(sub) && 0 < n < InnerCount(sub)
    ensures var (b, m) := Descend(sub, n);
            PathOf(sub, n) == [b] + PathOf(if b then sub.right else sub.left, m)
  {
  }

  lemma PreorderDescend(t: Tree, sub: Tree, p: Bits, n: nat)
    requires Full(t) && InnerAt(t, []) && Full(sub) && At(t, p) == sub && 0 < n < InnerCount(sub)
    ensures var (b, m) := Descend(sub, n);
            var child := if b then sub.right else sub.left;
            At(t, p + [b]) == child && Preorder(t, sub, p)[n] == Preorder(t, child, p + [b])[m]
  {
    AtSnoc(t, p, false);
    AtSnoc(t, p, true);
    assert Preorder(t, sub, p) ==
      [Row(t, p)] + Preorder(t, sub.left, p + [false]) + Preorder(t, sub.right, p + [true]);
  }

  lemma {:induction false} PreorderAt(t: Tree, sub: Tree, p: Bits, n: nat, path: Bits)
    requires Full(t) && InnerAt(t, []) && Full(sub) && At(t, p) == sub && n < InnerCount(sub)
    requires path == p + PathOf(sub, n)
    ensures At(t, path).Node? && Preorder(t, sub, p)[n] == Row(t, path)
    decreases sub
  {
    if n == 0 {
      assert path == p;
    } else {
      var (b, m) := Descend(sub, n);
      var child := if b then sub.right else sub.left;
      PathOfDescend(sub, n);
      PreorderDescend(t, sub, p, n);
      assert path == p + [b] + PathOf(child, m);
      PreorderAt(t, child, p + [b], m, path);
    }
  }

  lemma PreorderIsTable(t: Tree)
    requires Full(t) && InnerAt(t, [])
    ensures Preorder(t, t, []) == Table(t)
  {
    forall n | 0 <= n < InnerCount(t) ensures Preorder(t, t, [])[n] == Table(t)[n] {
      PreorderAt(t, t, [], n, PathOf(t, n));
    }
  }
}
