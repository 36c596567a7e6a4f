/** The shape of the code of Appendix B of RFC 7541: how many codewords each length has, the
    words of a length being those that come before its inner nodes. A bit string is given by
    how far it is from the string of ones of its length, so that halving the distance leads to
    the parent. Every assignment of such words to the 256 octets and EOS is an `HpackCode`. */
module HuffmanStandard {
  import opened Basics
  import opened HuffmanCode

  const DEPTH: nat := 30

  /** The number of inner nodes at each depth of the tree of the standard. */
  const INNER: seq<nat> :=
    [1, 2, 4, 8, 16, 22, 18, 4, 2, 4, 3, 3, 4, 2, 2, 1, 2, 4, 8, 13, 18, 23, 20, 11, 10, 16, 17, 15, 1, 2, 0]

  /** The bit string of length n at distance d from ones. */
  function WordAt(d: nat, n: nat): (b: Bits)
    ensures |b| == n
  {
    if n == 0 then [] else WordAt(d / 2, n - 1) + [d % 2 == 0]
  }

  /** A tree given by the number of its inner nodes at each depth, of which it has none at
      the last. */
  predicate Shape(u: seq<nat>) {
    && |u| > 1 && u[0] == 1 && u[|u| - 1] == 0
    && forall n :: 0 < n < |u| ==> u[n] <= 2 * u[n - 1]
  }

  predicate Leaf(u: seq<nat>, d: nat, n: nat) {
    0 < n < |u| && u[n] <= d < 2 * u[n - 1]
  }

  ghost predicate IsWord(u: seq<nat>, b: Bits) {
    exists d: nat :: Leaf(u, d, |b|) && b == WordAt(d, |b|)
  }

  // ---------------------------------------------------------------- no word before another

  lemma {:induction false} WordAtInjective(u: seq<nat>, d: nat, e: nat, n: nat)
    requires Shape(u) && n < |u| && WordAt(d, n) == WordAt(e, n)
    requires if n == 0 then d < 1 && e < 1 else d < 2 * u[n - 1] && e < 2 * u[n - 1]
    ensures d == e
  {
    if n == 0 {
    } else {
      assert WordAt(d, n)[..n - 1] == WordAt(d / 2, n - 1) && WordAt(e, n)[..n - 1] == WordAt(e / 2, n - 1);
      assert WordAt(d, n)[n - 1] == WordAt(e, n)[n - 1];
      WordAtInjective(u, d / 2, e / 2, n - 1);
    }
  }

  /** Above a node that the tree has there are only inner nodes. */
  lemma {:induction false} Above(u: seq<nat>, d: nat, n: nat, m: nat) returns (a: nat)
    requires Shape(u) && m < n < |u| && d < 2 * u[n - 1]
    ensures a < u[m] && WordAt(d, n)[..m] == WordAt(a, m)
  {
    assert WordAt(d, n)[..n - 1] == WordAt(d / 2, n - 1);
    if m == n - 1 {
      a := d / 2;
    } else {
      a := Above(u, d / 2, n - 1, m);
      assert WordAt(d, n)[..m] == WordAt(d, n)[..n - 1][..m];
    }
  }

  lemma WordsApart(u: seq<nat>, b: Bits, c: Bits)
    requires Shape(u) && IsWord(u, b) && IsWord(u, c) && b <= c
    ensures b == c
  {
    var d: nat :| Leaf(u, d, |b|) && b == WordAt(d, |b|);
    var e: nat :| Leaf(u, e, |c|) && c == WordAt(e, |c|);
    if |b| < |c| {
      var a := Above(u, e, |c|, |b|);
      WordAtInjective(u, a, d, |b|);
      assert false;
    }
  }

  // ---------------------------------------------------------------- every string meets a word

  /** The strings with no word at their head are the inner nodes. */
  lemma {:induction false} WordOrInner(u: seq<nat>, b: Bits) returns (n: nat, d: nat)
    requires Shape(u) && |b| < |u|
    ensures n <= |b| && (IsWord(u, b[..n]) || (n == |b| && d < u[n] && b == WordAt(d, n)))
    decreases |b|
  {
    n, d := 0, 0;
    if b == [] {
    } else {
      var init := b[..|b| - 1];
      n, d := WordOrInner(u, init);
      if IsWord(u, init[..n]) {
        assert b[..n] == init[..n];
      } else {
        n, d := |b|, if b[|b| - 1] then 2 * d else 2 * d + 1;
        assert b == init + [b[|b| - 1]] == WordAt(d, n);
        assert b[..n] == b;
        assert u[n] <= d ==> Leaf(u, d, n);
      }
    }
  }

  lemma MeetsWord(u: seq<nat>, b: Bits) returns (w: Bits)
    requires Shape(u)
    ensures IsWord(u, w) && (w <= b || b <= w)
  {
    var long := b + Ones(|u| - 1);
    var cut := long[..|u| - 1];
    var n, d := WordOrInner(u, cut);
    w := cut[..n];
    assert w == long[..n];
    assert b == long[..|b|];
  }

  // ---------------------------------------------------------------- the standard's code

  ghost predicate Distinct(bs: seq<Bits>) {
    forall i, j :: 0 <= i < |bs| && 0 <= j < |bs| && i != j ==> bs[i] != bs[j]
  }

  /** Symbols with distinct words of a shape, and every word taken. */
  ghost predicate Assigns(u: seq<nat>, code: seq<Bits>) {
    && (forall i :: 0 <= i < |code| ==> IsWord(u, code[i]))
    && Distinct(code)
    && forall b: Bits :: IsWord(u, b) ==> b in code
  }

  lemma AssignedComplete(u: seq<nat>, code: seq<Bits>)
    requires Shape(u) && Assigns(u, code)
    ensures PrefixFree(code) && Exhaustive(code)
  {
    forall i, j | 0 <= i < |code| && 0 <= j < |code| && i != j
      ensures !(code[i] <= code[j])
    {
      if code[i] <= code[j] {
        WordsApart(u, code[i], code[j]);
      }
    }
    forall b: Bits
      ensures Comparable(code, b)
    {
      var w := MeetsWord(u, b);
      var i :| 0 <= i < |code| && code[i] == w;
    }
  }

  /** The words of length n, in the order of the standard. */
  function WordsAt(u: seq<nat>, n: nat): (ws: seq<Bits>)
    requires Shape(u) && 0 < n < |u|
    ensures |ws| == 2 * u[n - 1] - u[n]
  {
    seq(2 * u[n - 1] - u[n], k requires 0 <= k < 2 * u[n - 1] - u[n] => WordAt(2 * u[n - 1] - 1 - k, n))
  }

  /** The words down to depth n. */
  function Words(u: seq<nat>, n: nat): (ws: seq<Bits>)
    requires Shape(u) && n < |u|
  {
    if n == 0 then [] else Words(u, n - 1) + WordsAt(u, n)
  }

  lemma WordsAtDistinct(u: seq<nat>, n: nat)
    requires Shape(u) && 0 < n < |u|
    ensures var ws := WordsAt(u, n);
            && (forall i :: 0 <= i < |ws| ==> IsWord(u, ws[i]) && |ws[i]| == n)
            && Distinct(ws)
  {
    var ws := WordsAt(u, n);
    forall i | 0 <= i < |ws|
      ensures IsWord(u, ws[i]) && |ws[i]| == n
    {
      assert Leaf(u, 2 * u[n - 1] - 1 - i, n);
    }
    forall i, j | 0 <= i < |ws| && 0 <= j < |ws| && i != j
      ensures ws[i] != ws[j]
    {
      if ws[i] == ws[j] {
        WordAtInjective(u, 2 * u[n - 1] - 1 - i, 2 * u[n - 1] - 1 - j, n);
      }
    }
  }

  lemma Joined(u: seq<nat>, xs: seq<Bits>, ys: seq<Bits>, n: nat)
    requires n > 0 && Distinct(xs) && Distinct(ys)
    requires forall i :: 0 <= i < |xs| ==> IsWord(u, xs[i]) && |xs[i]| <= n - 1
    requires forall i :: 0 <= i < |ys| ==> IsWord(u, ys[i]) && |ys[i]| == n
    ensures Distinct(xs + ys)
    ensures forall i :: 0 <= i < |xs + ys| ==> IsWord(u, (xs + ys)[i]) && |(xs + ys)[i]| <= n
  {
    var zs := xs + ys;
    assert forall i :: 0 <= i < |zs| ==> zs[i] == if i < |xs| then xs[i] else ys[i - |xs|];
  }

  lemma {:induction false} WordsDistinct(u: seq<nat>, n: nat)
    requires Shape(u) && n < |u|
    ensures var ws := Words(u, n);
            && (forall i :: 0 <= i < |ws| ==> IsWord(u, ws[i]) && |ws[i]| <= n)
            && Distinct(ws)
  {
    if n == 0 {
      assert Words(u, n) == [];
    } else {
      WordsDistinct(u, n - 1);
      WordsAtDistinct(u, n);
      Joined(u, Words(u, n - 1), WordsAt(u, n), n);
    }
  }

  lemma {:induction false} WordsAll(u: seq<nat>, n: nat, b: Bits)
    requires Shape(u) && n < |u| && IsWord(u, b) && |b| <= n
    ensures b in Words(u, n)
  {
    if |b| < n {
      WordsAll(u, n - 1, b);
    } else {
      var d: nat :| Leaf(u, d, n) && b == WordAt(d, n);
      assert WordsAt(u, n)[2 * u[n - 1] - 1 - d] == b;
    }
  }

  /** The number of words down to each depth. */
  const TOTALS: seq<nat> :=
    [0, 0, 0, 0, 0, 10, 36, 68, 74, 74, 79, 82, 84, 90, 92, 95, 95, 95, 95, 98, 106, 119, 145, 174, 186, 190, 205,
     224, 253, 253, 257]

  lemma InnerStep(n: nat)
    requires 0 < n < |INNER|
    ensures INNER[n] <= 2 * INNER[n - 1]
  {
  }

  lemma InnerShape()
    ensures Shape(INNER) && |INNER| == DEPTH + 1
  {
    forall n | 0 < n < |INNER|
      ensures INNER[n] <= 2 * INNER[n - 1]
    {
      InnerStep(n);
    }
  }

  lemma NoShortLeaf(d: nat, n: nat)
    requires Leaf(INNER, d, n)
    ensures 4 <= n
  {
  }

  predicate Sums() {
    && |INNER| == |TOTALS| == DEPTH + 1 && TOTALS[0] == 0 && TOTALS[DEPTH] == EOS + 1
    && forall n :: 0 < n <= DEPTH ==> TOTALS[n] == TOTALS[n - 1] + (2 * INNER[n - 1] - INNER[n])
  }

  lemma InnerSums()
    ensures Sums()
  {
  }

  lemma {:induction false} WordsTotal(n: nat)
    requires n <= DEPTH && Shape(INNER) && Sums()
    ensures |Words(INNER, n)| == TOTALS[n]
  {
    if n == 0 {
    } else {
      WordsTotal(n - 1);
    }
  }

  function Elements(bs: seq<Bits>): set<Bits> {
    set b | b in bs
  }

  lemma {:induction false} ElementsCount(bs: seq<Bits>)
    requires Distinct(bs)
    ensures |Elements(bs)| == |bs|
  {
    if bs == [] {
    } else {
      var init := bs[..|bs| - 1];
      ElementsCount(init);
      assert Elements(bs) == Elements(init) + {bs[|bs| - 1]};
      assert bs[|bs| - 1] !in init;
    }
  }

  lemma SubsetSame(a: set<Bits>, b: set<Bits>)
    requires a <= b && |a| == |b|
    ensures a == b
  {
    assert b == a + (b - a);
  }

  /** Distinct words of the shape, as many as it has, are all of them. */
  lemma Covers(code: seq<Bits>)
    requires |code| == EOS + 1
    requires forall i :: 0 <= i < |code| ==> IsWord(INNER, code[i])
    requires Distinct(code)
    ensures Assigns(INNER, code)
  {
    InnerShape();
    InnerSums();
    var ws := Words(INNER, DEPTH);
    WordsTotal(DEPTH);
    WordsDistinct(INNER, DEPTH);
    ElementsCount(ws);
    ElementsCount(code);
    forall b: Bits | IsWord(INNER, b)
      ensures b in ws
    {
      WordsAll(INNER, DEPTH, b);
    }
    SubsetSame(Elements(code), Elements(ws));
    forall b: Bits | IsWord(INNER, b)
      ensures b in code
    {
      assert b in Elements(ws);
    }
  }

  /** Whichever octet has which of them, 257 distinct words of the standard's shape with EOS on
      thirty ones make a code as `HpackCode` wants it. */
  lemma StandardCode(code: seq<Bits>)
    requires |code| == EOS + 1 && code[EOS] == Ones(DEPTH)
    requires forall i :: 0 <= i < |code| ==> IsWord(INNER, code[i])
    requires Distinct(code)
    ensures HpackCode(code)
  {
    InnerShape();
    Covers(code);
    AssignedComplete(INNER, code);
    forall i | 0 <= i < |code|
      ensures 4 <= |code[i]|
    {
      var d: nat :| Leaf(INNER, d, |code[i]|) && code[i] == WordAt(d, |code[i]|);
      NoShortLeaf(d, |code[i]|);
    }
  }

  lemma {:induction false} WordAtZero(n: nat)
    ensures WordAt(0, n) == Ones(n)
  {
    if n == 0 {
    } else {
      WordAtZero(n - 1);
    }
  }

  /** There is such a code. */
  lemma StandardCodeExists() returns (code: seq<Bits>)
    ensures |code| == EOS + 1 && code[EOS] == Ones(DEPTH) && HpackCode(code)
    ensures forall i :: 0 <= i < |code| ==> IsWord(INNER, code[i])
  {
    InnerShape();
    InnerSums();
    code := Words(INNER, DEPTH);
    WordsTotal(DEPTH);
    WordsDistinct(INNER, DEPTH);
    WordAtZero(DEPTH);
    assert code[EOS] == WordsAt(INNER, DEPTH)[|WordsAt(INNER, DEPTH)| - 1];
    StandardCode(code);
  }
}
