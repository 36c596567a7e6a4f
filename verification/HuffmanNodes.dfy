/** The generator of `misc/mkhufftbl.py` itself: linked nodes that are added to, numbered,
    given their transitions and printed, proved against the tree functions of `HuffmanCode`
    and `HuffmanTable`. */
module HuffmanNodes {
  import opened Basics
  import opened Options
  import opened HuffmanCode
  import opened HuffmanTable

  class Node {
    var term: Option<nat>
    var left: Node?
    var right: Node?
    var trans: seq<(Node?, Option<nat>)>
    var id: Option<nat>
    var accept: bool
    ghost var Repr: set<Node>

    constructor ()
      ensures Valid() && Repr == {this} && T() == FRESH && Blank()
    {
      term, left, right, trans, id, accept := None, null, null, [], None, false;
      Repr := {this};
    }

    ghost predicate Valid()
      reads this`left, this`right, this`Repr, Repr`left, Repr`right, Repr`Repr
      decreases Repr
    {
      && this in Repr
      && (left != null ==> left in Repr && left.Repr < Repr && this !in left.Repr && left.Valid())
      && (right != null ==> right in Repr && right.Repr < Repr && this !in right.Repr && right.Valid())
      && (left != null && right != null ==> left.Repr !! right.Repr)
    }

    /** The tree that hangs from this node. */
    ghost function T(): (t: Tree)
      requires Valid()
      reads this`left, this`right, this`Repr, this`term, Repr`left, Repr`right, Repr`Repr, Repr`term
      ensures t.Node?
      decreases Repr
    {
      Node.Tree(term, if left == null then Empty else left.T(), if right == null then Empty else right.T())
    }

    static ghost function Tree(term: Option<nat>, l: Tree, r: Tree): Tree {
      HuffmanCode.Node(term, l, r)
    }

    /** Nothing numbered and no transitions yet. */
    ghost predicate Blank()
      reads this`Repr, Repr`trans, Repr`id, Repr`accept
    {
      forall n <- Repr :: n.trans == [] && n.id == None && !n.accept
    }

    method GrowLeft()
      requires Valid() && Blank()
      modifies this`left, this`Repr
      ensures Valid() && Blank() && fresh(Repr - old(Repr)) && old(Repr) <= Repr && left != null
      ensures T() == old(var t := T(); Tree(term, if t.left.Empty? then FRESH else t.left, t.right))
    {
      if left == null {
        left := new Node();
        Repr := Repr + left.Repr;
      }
    }

    method AddLeft(sym: nat, bits: Bits)
      requires Valid() && Blank() && left != null
      modifies this`Repr, left.Repr
      ensures Valid() && Blank() && fresh(Repr - old(Repr)) && old(Repr) <= Repr
      ensures T() == old(var t := T(); Tree(term, Insert(t.left, sym, bits), t.right))
      decreases |bits|, 2
    {
      ghost var other := right;
      left.Add(sym, bits);
      Repr := Repr + left.Repr;
      assert right == other;
    }

    method GrowRight()
      requires Valid() && Blank()
      modifies this`right, this`Repr
      ensures Valid() && Blank() && fresh(Repr - old(Repr)) && old(Repr) <= Repr && right != null
      ensures T() == old(var t := T(); Tree(term, t.left, if t.right.Empty? then FRESH else t.right))
    {
      if right == null {
        right := new Node();
        Repr := Repr + right.Repr;
      }
    }

    method AddRight(sym: nat, bits: Bits)
      requires Valid() && Blank() && right != null
      modifies this`Repr, right.Repr
      ensures Valid() && Blank() && fresh(Repr - old(Repr)) && old(Repr) <= Repr
      ensures T() == old(var t := T(); Tree(term, t.left, Insert(t.right, sym, bits)))
      decreases |bits|, 2
    {
      ghost var other := left;
      right.Add(sym, bits);
      Repr := Repr + right.Repr;
      assert left == other;
    }

    /** `_add` */
    method Add(sym: nat, bits: Bits)
      requires Valid() && Blank()
      modifies Repr
      ensures Valid() && Blank() && fresh(Repr - old(Repr)) && old(Repr) <= Repr
      ensures T() == Insert(old(T()), sym, bits)
      decreases |bits|, 1
    {
      if bits == [] {
        term := Some(sym);
      } else if !bits[0] {
        GrowLeft();
        AddLeft(sym, bits[1..]);
      } else {
        GrowRight();
        AddRight(sym, bits[1..]);
      }
    }
  
    // -------------------------------------------------------------- positions

    /** The node that the bits p lead to. */
    ghost function NodeAt(p: Bits): (n: Node)
      requires Valid() && At(T(), p).Node?
      reads this`left, this`right, this`Repr, this`term, Repr`left, Repr`right, Repr`Repr, Repr`term
      ensures n in Repr && n.Repr <= Repr && n.Valid() && n.T() == At(T(), p)
      decreases |p|
    {
      if p == [] then this
      else
        assert At(if p[0] then T().right else T().left, p[1..]).Node?;
        if p[0] then right.NodeAt(p[1..]) else left.NodeAt(p[1..])
    }

    lemma {:induction false} NodeAtSnoc(p: Bits, b: bool)
      requires Valid() && At(T(), p).Node? && At(T(), p + [b]).Node?
      ensures NodeAt(p + [b]) == if b then NodeAt(p).right else NodeAt(p).left
      decreases |p|
    {
      if p == [] {
        assert (p + [b])[1..] == [];
      } else {
        assert (p + [b])[1..] == p[1..] + [b];
        if p[0] {
          right.NodeAtSnoc(p[1..], b);
        } else {
          left.NodeAtSnoc(p[1..], b);
        }
      }
    }

    // -------------------------------------------------------------- numbering

    /** The inner nodes below are numbered in preorder from n, and the ones that padding can
        end at are marked. */
    ghost predicate Numbered(prefix: Bits, n: nat)
      requires Valid()
      reads this`left, this`right, this`Repr, this`term, Repr`left, Repr`right, Repr`Repr, Repr`term
      reads this`id, this`accept, Repr`id, Repr`accept
      decreases Repr
    {
      if term.Some? then id == None && !accept
      else
        && id == Some(n)
        && accept == Accepting(prefix)
        && left != null && left.Numbered(prefix + [false], n + 1)
        && right != null && right.Numbered(prefix + [true], n + 1 + InnerCount(left.T()))
    }

    /** No node below carries a number or a mark. */
    ghost predicate Unnumbered()
      requires Valid()
      reads this`left, this`right, this`Repr, Repr`left, Repr`right, Repr`Repr
      reads this`id, this`accept, Repr`id, Repr`accept
      decreases Repr
    {
      && id == None && !accept
      && (left != null ==> left.Unnumbered())
      && (right != null ==> right.Unnumbered())
    }

    method Mark(ctx: Context, prefix: Bits)
      requires !accept
      modifies this`id, this`accept, ctx`nextId
      ensures id == Some(old(ctx.nextId)) && ctx.nextId == old(ctx.nextId) + 1
      ensures accept == Accepting(prefix)
    {
      if |prefix| <= 7 && Ones(|prefix|) == prefix {
        accept := true;
      }
      assert AllOnes(prefix) ==> Ones(|prefix|) == prefix;
      var next := ctx.NextId();
      id := Some(next);
    }

    /** `_set_node_id` */
    method SetNodeId(ctx: Context, prefix: Bits)
      requires Valid() && Full(T()) && Unnumbered()
      modifies Repr`id, Repr`accept, ctx`nextId
      ensures Numbered(prefix, old(ctx.nextId))
      ensures ctx.nextId == old(ctx.nextId) + InnerCount(T())
      decreases Repr, 3
    {
      if term.Some? {
        return;
      }
      assert Full(T().left) && Full(T().right);
      ghost var n := ctx.nextId;
      Mark(ctx, prefix);
      NumberBelow(ctx, prefix, n);
    }

    method NumberBelow(ctx: Context, prefix: Bits, ghost n: nat)
      requires Valid() && Full(T()) && term.None? && left != null && right != null && Full(left.T()) && Full(right.T())
      requires left.Unnumbered() && right.Unnumbered() && ctx.nextId == n + 1
      requires id == Some(n) && accept == Accepting(prefix)
      modifies left.Repr`id, left.Repr`accept, right.Repr`id, right.Repr`accept, ctx`nextId
      ensures Numbered(prefix, n) && ctx.nextId == n + InnerCount(T())
      decreases Repr, 2
    {
      NumberChildren(ctx, prefix, n + 1, n + 1 + InnerCount(left.T()));
      NumberedFrom(prefix, n);
    }

    lemma NumberedFrom(prefix: Bits, n: nat)
      requires Valid() && Full(T()) && term.None? && left != null && right != null
      requires id == Some(n) && accept == Accepting(prefix) && left.Numbered(prefix + [false], n + 1)
      requires right.Numbered(prefix + [true], n + 1 + InnerCount(left.T()))
      ensures Numbered(prefix, n) && InnerCount(T()) == 1 + InnerCount(left.T()) + InnerCount(right.T())
    {
    }

    method NumberChildren(ctx: Context, prefix: Bits, ghost n: nat, ghost m: nat)
      requires Valid() && term.None? && left != null && right != null && Full(left.T()) && Full(right.T())
      requires left.Unnumbered() && right.Unnumbered() && ctx.nextId == n && m == n + InnerCount(left.T())
      modifies left.Repr`id, left.Repr`accept, right.Repr`id, right.Repr`accept, ctx`nextId
      ensures left.Numbered(prefix + [false], n) && right.Numbered(prefix + [true], m)
      ensures ctx.nextId == m + InnerCount(right.T()) && id == old(id) && accept == old(accept)
      decreases Repr, 1
    {
      NumberLeft(ctx, prefix, n);
      NumberRight(ctx, prefix, n, m);
    }

    method NumberLeft(ctx: Context, prefix: Bits, ghost n: nat)
      requires Valid() && term.None? && left != null && right != null && Full(left.T()) && Full(right.T())
      requires left.Unnumbered() && right.Unnumbered() && ctx.nextId == n
      modifies left.Repr`id, left.Repr`accept, ctx`nextId
      ensures left.Numbered(prefix + [false], n) && right.Unnumbered()
      ensures ctx.nextId == n + InnerCount(left.T())
      decreases Repr, 0
    {
      left.SetNodeId(ctx, prefix + [false]);
    }

    method NumberRight(ctx: Context, prefix: Bits, ghost n: nat, ghost m: nat)
      requires Valid() && term.None? && left != null && right != null && Full(left.T()) && Full(right.T())
      requires left.Numbered(prefix + [false], n) && right.Unnumbered() && ctx.nextId == m
      modifies right.Repr`id, right.Repr`accept, ctx`nextId
      ensures left.Numbered(prefix + [false], n) && right.Numbered(prefix + [true], m)
      ensures ctx.nextId == m + InnerCount(right.T())
      decreases Repr, 0
    {
      right.SetNodeId(ctx, prefix + [true]);
    }

    static lemma FirstBit(prefix: Bits, p: Bits)
      requires p != []
      ensures prefix + p == prefix + [p[0]] + p[1..]
    {
    }

    lemma {:induction false} NumberedAt(prefix: Bits, n: nat, p: Bits)
      requires Valid() && Full(T()) && Numbered(prefix, n) && At(T(), p).Node?
      ensures NodeAt(p).id == if InnerAt(T(), p) then Some(n + IdOf(T(), p)) else None
      ensures NodeAt(p).accept <==> InnerAt(T(), p) && Accepting(prefix + p)
      decreases |p|
    {
      if p == [] {
        assert prefix + p == prefix;
      } else {
        FirstBit(prefix, p);
        if p[0] {
          right.NumberedAt(prefix + [true], n + 1 + InnerCount(left.T()), p[1..]);
        } else {
          left.NumberedAt(prefix + [false], n + 1, p[1..]);
        }
      }
    }
  
    lemma {:induction false} BlankUnnumbered()
      requires Valid() && Blank()
      ensures Unnumbered()
      decreases Repr
    {
      if left != null {
        left.BlankUnnumbered();
      }
      if right != null {
        right.BlankUnnumbered();
      }
    }
  }

  // ---------------------------------------------------------------- transitions

  /** A pair stored in `trans` stands for the end of a walk from the root. */
  ghost predicate Refers(root: Node, e: (Node?, Option<nat>), s: Step)
    requires root.Valid()
    reads root`left, root`right, root`Repr, root`term, root.Repr`left, root.Repr`right, root.Repr`Repr, root.Repr`term
  {
    match s
    case Fail => e == (null, None)
    case Step(p, out) => At(root.T(), p).Node? && e == (root.NodeAt(p), out)
  }

  ghost predicate ReferAll(root: Node, es: seq<(Node?, Option<nat>)>, ss: seq<Step>)
    requires root.Valid()
    reads root`left, root`right, root`Repr, root`term, root.Repr`left, root.Repr`right, root.Repr`Repr, root.Repr`term
  {
    |es| == |ss| && forall k :: 0 <= k < |es| ==> Refers(root, es[k], ss[k])
  }

  /** The tree of a usable root: complete, and with at most one symbol in any `n` bits read
      from position p after `out`. */
  ghost predicate AssertionHolds(t: Tree, p: Bits, out: Option<nat>, n: nat) {
    forall bits: Bits :: |bits| == n ==> OneSymbol(t, p, out, bits)
  }

  lemma AssertionStep(t: Tree, p: Bits, out: Option<nat>, n: nat, b: bool)
    requires 0 < n && AssertionHolds(t, p, out, n)
    ensures var q := Restart(t, p) + [b];
            (TermAt(t, q).Some? ==> out.None?) && AssertionHolds(t, q, Emit(out, TermAt(t, q)), n - 1)
  {
    var q := Restart(t, p) + [b];
    assert OneSymbol(t, p, out, [b] + Ones(n - 1));
    forall bits: Bits | |bits| == n - 1 ensures OneSymbol(t, q, Emit(out, TermAt(t, q)), bits) {
      assert OneSymbol(t, p, out, [b] + bits);
      assert ([b] + bits)[1..] == bits;
    }
  }

  lemma ReferAppend(root: Node, a: seq<(Node?, Option<nat>)>, b: seq<(Node?, Option<nat>)>, sa: seq<Step>, sb: seq<Step>)
    requires root.Valid() && ReferAll(root, a, sa) && ReferAll(root, b, sb)
    ensures ReferAll(root, a + b, sa + sb)
  {
  }

  /** Everything the traversal knows about the tree, none of which `trans` takes part in. */
  ghost predicate Usable(root: Node, t: Tree)
    reads root`left, root`right, root`Repr, root`term, root.Repr`left, root.Repr`right, root.Repr`Repr, root.Repr`term
  {
    root.Valid() && root.T() == t && Full(t) && InnerAt(t, [])
  }

  /** `_traverse`, with p the position of node below root; `es` is what it appends. */
  method Traverse(node: Node, sym: Option<nat>, start: Node, root: Node, left: nat, ghost t: Tree, ghost p: Bits)
    returns (ghost es: seq<(Node?, Option<nat>)>)
    requires Usable(root, t) && At(t, p).Node? && node == root.NodeAt(p)
    requires AssertionHolds(t, p, sym, left)
    modifies start`trans
    ensures start.trans == old(start.trans) + es
    ensures ReferAll(root, es, Walks(t, p, sym, left))
    decreases left
  {
    if left == 0 {
      var e := if sym == Some(EOS) then (null, None) else (node, sym);
      start.trans := start.trans + [e];
      es := [e];
      assert Refers(root, e, Walk(t, p, sym, []));
    } else {
      var from := if node.term.Some? then root else node;
      RestartChildren(root, p);
      es := Branch(from.left, from.right, sym, start, root, left, t, p);
    }
  }

  method Branch(l: Node, r: Node, sym: Option<nat>, start: Node, root: Node, left: nat, ghost t: Tree, ghost p: Bits)
    returns (ghost es: seq<(Node?, Option<nat>)>)
    requires Usable(root, t) && At(t, p).Node?
    requires At(t, Restart(t, p) + [false]).Node? && l == root.NodeAt(Restart(t, p) + [false])
    requires At(t, Restart(t, p) + [true]).Node? && r == root.NodeAt(Restart(t, p) + [true])
    requires 0 < left && AssertionHolds(t, p, sym, left)
    modifies start`trans
    ensures start.trans == old(start.trans) + es
    ensures ReferAll(root, es, Half(t, p, sym, left, false) + Half(t, p, sym, left, true))
    decreases left, 2
  {
    ghost var before := start.trans;
    ghost var el := Go(l, sym, start, root, left, t, p, false);
    ghost var er := GoRight(r, sym, start, root, left, t, p, el);
    es := el + er;
    assert before + el + er == before + es;
  }

  /** The second half, behind the first. */
  method GoRight(r: Node, sym: Option<nat>, start: Node, root: Node, left: nat, ghost t: Tree, ghost p: Bits,
                 ghost el: seq<(Node?, Option<nat>)>)
    returns (ghost er: seq<(Node?, Option<nat>)>)
    requires Usable(root, t) && 0 < left && AssertionHolds(t, p, sym, left)
    requires At(t, Restart(t, p) + [true]).Node? && r == root.NodeAt(Restart(t, p) + [true])
    requires ReferAll(root, el, Half(t, p, sym, left, false))
    modifies start`trans
    ensures start.trans == old(start.trans) + er
    ensures ReferAll(root, el + er, Half(t, p, sym, left, false) + Half(t, p, sym, left, true))
    decreases left, 1
  {
    er := Go(r, sym, start, root, left, t, p, true);
    ReferAppend(root, el, er, Half(t, p, sym, left, false), Half(t, p, sym, left, true));
  }

  ghost function Half(t: Tree, p: Bits, sym: Option<nat>, left: nat, b: bool): seq<Step>
    requires 0 < left
  {
    var q := Restart(t, p) + [b];
    Walks(t, q, Emit(sym, TermAt(t, q)), left - 1)
  }

  lemma Children(root: Node, p: Bits)
    requires root.Valid() && Full(root.T()) && InnerAt(root.T(), p)
    ensures At(root.T(), p + [false]).Node? && root.NodeAt(p + [false]) == root.NodeAt(p).left
    ensures At(root.T(), p + [true]).Node? && root.NodeAt(p + [true]) == root.NodeAt(p).right
  {
    FullAt(root.T(), p);
    AtSnoc(root.T(), p, false);
    AtSnoc(root.T(), p, true);
    root.NodeAtSnoc(p, false);
    root.NodeAtSnoc(p, true);
  }

  lemma RestartChildren(root: Node, p: Bits)
    requires root.Valid() && Full(root.T()) && InnerAt(root.T(), []) && At(root.T(), p).Node?
    ensures var from := if root.NodeAt(p).term.Some? then root else root.NodeAt(p);
            var q := Restart(root.T(), p);
            && At(root.T(), q + [false]).Node? && root.NodeAt(q + [false]) == from.left
            && At(root.T(), q + [true]).Node? && root.NodeAt(q + [true]) == from.right
  {
    Children(root, Restart(root.T(), p));
  }

  /** The inner function `go` of `_traverse`; its assertion is the precondition. */
  method Go(child: Node, sym: Option<nat>, start: Node, root: Node, left: nat, ghost t: Tree, ghost p: Bits, ghost b: bool)
    returns (ghost es: seq<(Node?, Option<nat>)>)
    requires 0 < left && Usable(root, t)
    requires At(t, Restart(t, p) + [b]).Node? && child == root.NodeAt(Restart(t, p) + [b])
    requires AssertionHolds(t, p, sym, left)
    modifies start`trans
    ensures start.trans == old(start.trans) + es
    ensures ReferAll(root, es, Half(t, p, sym, left, b))
    decreases left, 0
  {
    AssertionStep(t, p, sym, left, b);
    var nsym := sym;
    if child.term.Some? {
      assert sym == None;
      nsym := child.term;
    }
    es := Traverse(child, nsym, start, root, left - 1, t, Restart(t, p) + [b]);
  }

  /** Every node below `node` holds the 16 transitions of its position. */
  ghost predicate Rowed(root: Node, t: Tree, node: Node, p: Bits, width: nat)
    requires root.Valid() && node.Valid()
    reads root`left, root`right, root`Repr, root`term, root.Repr`left, root.Repr`right, root.Repr`Repr, root.Repr`term
    reads node`left, node`right, node`Repr, node`trans
    reads node.Repr`left, node.Repr`right, node.Repr`Repr, node.Repr`trans
    decreases node.Repr
  {
    && ReferAll(root, node.trans, Walks(t, p, None, width))
    && (node.left != null ==> Rowed(root, t, node.left, p + [false], width))
    && (node.right != null ==> Rowed(root, t, node.right, p + [true], width))
  }

  method FillRow(node: Node, root: Node, width: nat, ghost t: Tree, ghost p: Bits)
    requires Usable(root, t) && At(t, p).Node? && node == root.NodeAt(p)
    requires width <= 4 && NoShortCodeword(t) && node.trans == []
    modifies node`trans
    ensures ReferAll(root, node.trans, Walks(t, p, None, width))
  {
    forall bits: Bits | |bits| == width ensures OneSymbol(t, p, None, bits) {
      LongCodewordsOneSymbol(t, p, None, bits);
    }
    ghost var es := Traverse(node, None, node, root, width, t, p);
    assert node.trans == es;
  }

  /** A node of a complete tree has both children or none. */
  lemma Positions(root: Node, t: Tree, p: Bits)
    requires Usable(root, t) && At(t, p).Node?
    ensures var n := root.NodeAt(p);
            && (n.left != null ==> At(t, p + [false]).Node? && root.NodeAt(p + [false]) == n.left)
            && (n.right != null ==> At(t, p + [true]).Node? && root.NodeAt(p + [true]) == n.right)
  {
    FullAt(t, p);
    var n := root.NodeAt(p);
    if n.left != null || n.right != null {
      Children(root, p);
    }
  }

  ghost predicate NoTransitions(nodes: set<Node>)
    reads nodes`trans
  {
    forall n <- nodes :: n.trans == []
  }

  lemma NoTransitionsBelow(node: Node)
    requires node.Valid() && NoTransitions(node.Repr)
    ensures node.trans == []
    ensures node.left != null ==> NoTransitions(node.left.Repr)
    ensures node.right != null ==> NoTransitions(node.right.Repr)
  {
  }

  /** `_build_transition_table` */
  method BuildTransitions(node: Node?, root: Node, width: nat, ghost t: Tree, ghost p: Bits)
    requires Usable(root, t) && width <= 4 && NoShortCodeword(t)
    requires node != null ==> At(t, p).Node? && node == root.NodeAt(p) && NoTransitions(node.Repr)
    modifies if node == null then {} else node.Repr`trans
    ensures node != null ==> Rowed(root, t, node, p, width)
    decreases if node == null then {} else node.Repr, 1
  {
    if node == null {
      return;
    }
    NoTransitionsBelow(node);
    FillRow(node, root, width, t, p);
    BuildChildren(node, root, width, t, p);
  }

  method BuildChildren(node: Node, root: Node, width: nat, ghost t: Tree, ghost p: Bits)
    requires Usable(root, t) && width <= 4 && NoShortCodeword(t)
    requires At(t, p).Node? && node == root.NodeAt(p)
    requires node.left != null ==> NoTransitions(node.left.Repr)
    requires node.right != null ==> NoTransitions(node.right.Repr)
    modifies (node.Repr - {node})`trans
    ensures node.left != null ==> Rowed(root, t, node.left, p + [false], width)
    ensures node.right != null ==> Rowed(root, t, node.right, p + [true], width)
    decreases node.Repr, 0
  {
    if node.left != null {
      BuildLeft(node, root, width, t, p);
    }
    if node.right != null {
      BuildRight(node, root, width, t, p);
    }
  }

  method BuildLeft(node: Node, root: Node, width: nat, ghost t: Tree, ghost p: Bits)
    requires Usable(root, t) && width <= 4 && NoShortCodeword(t)
    requires At(t, p).Node? && node == root.NodeAt(p) && node.left != null && NoTransitions(node.left.Repr)
    requires node.right != null ==> NoTransitions(node.right.Repr)
    modifies node.left.Repr`trans
    ensures Rowed(root, t, node.left, p + [false], width)
    ensures node.right != null ==> NoTransitions(node.right.Repr)
    decreases node.left.Repr, 2
  {
    Positions(root, t, p);
    BuildTransitions(node.left, root, width, t, p + [false]);
  }

  method BuildRight(node: Node, root: Node, width: nat, ghost t: Tree, ghost p: Bits)
    requires Usable(root, t) && width <= 4 && NoShortCodeword(t)
    requires At(t, p).Node? && node == root.NodeAt(p) && node.right != null && NoTransitions(node.right.Repr)
    requires node.left != null ==> Rowed(root, t, node.left, p + [false], width)
    modifies node.right.Repr`trans
    ensures Rowed(root, t, node.right, p + [true], width)
    ensures node.left != null ==> Rowed(root, t, node.left, p + [false], width)
    decreases node.right.Repr, 2
  {
    Positions(root, t, p);
    BuildTransitions(node.right, root, width, t, p + [true]);
  }

  // ---------------------------------------------------------------- printing

  /** Nodes are numbered from 0 at the root. */
  ghost predicate Ready(root: Node, t: Tree)
    reads root`left, root`right, root`Repr, root`term, root.Repr`left, root.Repr`right, root.Repr`Repr, root.Repr`term
    reads root`id, root`accept, root.Repr`id, root.Repr`accept
  {
    Usable(root, t) && root.Numbered([], 0)
  }

  function Printed(e: (Node?, Option<nat>)): Entry
    reads e.0
  {
    if e.0 == null then PrintEntry(true, None, false, e.1)
    else PrintEntry(false, e.0.id, e.0.accept, e.1)
  }

  lemma PrintedIsEntry(root: Node, t: Tree, e: (Node?, Option<nat>), s: Step)
    requires Ready(root, t) && Refers(root, e, s) && StepInTree(t, s)
    ensures Printed(e) == EntryOf(t, s)
  {
    if s.Step? {
      root.NumberedAt([], 0, s.at);
      assert [] + s.at == s.at;
    }
  }

  lemma RowPrinted(root: Node, t: Tree, es: seq<(Node?, Option<nat>)>, p: Bits, width: nat, k: nat)
    requires Ready(root, t) && At(t, p).Node? && width == 4
    requires ReferAll(root, es, Walks(t, p, None, width))
    ensures |es| == 16
    ensures k < 16 ==> Printed(es[k]) == Row(t, p)[k]
  {
    RowWalks(t, p, 0);
    if k < 16 {
      RowWalks(t, p, k);
      PrintedIsEntry(root, t, es[k], Walks(t, p, None, width)[k]);
    }
  }

  lemma PreorderInner(t: Tree, p: Bits)
    requires Full(t) && InnerAt(t, []) && At(t, p).Node? && Full(At(t, p))
    requires InnerAt(t, p) && At(t, p + [false]).Node? && At(t, p + [true]).Node?
    ensures Full(At(t, p + [false])) && Full(At(t, p + [true]))
    ensures Preorder(t, At(t, p), p) ==
            [Row(t, p)] + Preorder(t, At(t, p + [false]), p + [false]) + Preorder(t, At(t, p + [true]), p + [true])
  {
    AtSnoc(t, p, false);
    AtSnoc(t, p, true);
  }

  /** `_print_transition_table`: the rows it prints, in order. */
  function PrintRows(node: Node): seq<seq<Entry>>
    requires node.Valid() && Full(node.T())
    reads *
    decreases node.Repr
  {
    if node.term.Some? then []
    else
      assert Full(node.T().left) && Full(node.T().right);
      [PrintRow(node.trans)] + PrintRows(node.left) + PrintRows(node.right)
  }

  function PrintRow(es: seq<(Node?, Option<nat>)>): (row: seq<Entry>)
    reads *
    ensures |row| == |es| && forall k :: 0 <= k < |es| ==> row[k] == Printed(es[k])
  {
    seq(|es|, k reads * requires 0 <= k < |es| => Printed(es[k]))
  }

  lemma RowIsPrinted(root: Node, t: Tree, es: seq<(Node?, Option<nat>)>, p: Bits, width: nat)
    requires Ready(root, t) && At(t, p).Node? && width == 4
    requires ReferAll(root, es, Walks(t, p, None, width))
    ensures PrintRow(es) == Row(t, p)
  {
    RowPrinted(root, t, es, p, width, 0);
    forall k | 0 <= k < 16 ensures PrintRow(es)[k] == Row(t, p)[k] {
      RowPrinted(root, t, es, p, width, k);
    }
  }

  lemma {:induction false} RowsArePrinted(node: Node, root: Node, width: nat, t: Tree, p: Bits)
    requires Ready(root, t) && At(t, p).Node? && node == root.NodeAt(p) && width == 4
    requires Rowed(root, t, node, p, width)
    ensures Full(At(t, p)) && PrintRows(node) == Preorder(t, At(t, p), p)
    decreases node.Repr
  {
    FullAt(t, p);
    if node.term.Some? {
    } else {
      Children(root, p);
      RowIsPrinted(root, t, node.trans, p, width);
      RowsArePrinted(node.left, root, width, t, p + [false]);
      RowsArePrinted(node.right, root, width, t, p + [true]);
      PreorderInner(t, p);
    }
  }

  class Context {
    var nextId: nat
    var root: Node

    constructor ()
      ensures nextId == 0 && fresh(root) && fresh(root.Repr)
      ensures root.Valid() && root.T() == FRESH && root.Blank()
    {
      nextId := 0;
      root := new Node();
    }

    method NextId() returns (id: nat)
      modifies this`nextId
      ensures id == old(nextId) && nextId == id + 1
    {
      id := nextId;
      nextId := nextId + 1;
    }
  }

  method Number(ctx: Context, root: Node, ghost t: Tree)
    requires Usable(root, t) && root.Blank() && ctx.nextId == 0
    modifies root.Repr`id, root.Repr`accept, ctx`nextId
    ensures Ready(root, t) && NoTransitions(root.Repr)
  {
    root.BlankUnnumbered();
    assert NoTransitions(root.Repr);
    root.SetNodeId(ctx, []);
  }

  method FillTable(root: Node, width: nat, ghost t: Tree, ghost top: Bits)
    requires Ready(root, t) && NoTransitions(root.Repr) && NoShortCodeword(t) && width <= 4 && top == []
    modifies root.Repr`trans
    ensures Ready(root, t) && Rowed(root, t, root, top, width)
  {
    BuildTransitions(root, root, width, t, top);
  }

  lemma TableIsPrinted(root: Node, width: nat, t: Tree, top: Bits)
    requires Ready(root, t) && width == 4 && top == [] && Rowed(root, t, root, top, width)
    ensures Full(root.T()) && PrintRows(root) == Table(t)
  {
    RowsArePrinted(root, root, width, t, top);
    PreorderIsTable(t);
  }

  /** Numbers the nodes, computes the transitions and prints them. */
  method EmitTable(ctx: Context, root: Node, width: nat, ghost t: Tree, ghost top: Bits) returns (table: seq<seq<Entry>>)
    requires Usable(root, t) && root.Blank() && NoShortCodeword(t) && width == 4 && ctx.nextId == 0 && top == []
    modifies root.Repr`id, root.Repr`accept, root.Repr`trans, ctx`nextId
    ensures table == Table(t)
  {
    Number(ctx, root, t);
    FillTable(root, width, t, top);
    TableIsPrinted(root, width, t, top);
    table := PrintRows(root);
  }

  /** The whole script: read the code, number the nodes, compute and print the table. */
  method Generate(code: seq<Bits>) returns (table: seq<seq<Entry>>)
    requires HpackCode(code)
    ensures Full(Build(code)) && InnerAt(Build(code), []) && table == Table(Build(code))
    ensures |table| == 256
  {
    var ctx := new Context();
    var root := ctx.root;
    AddAll(root, code);
    StatesFitOctet(code);
    HpackNoShort(code);
    var width := 4;
    table := EmitTable(ctx, root, width, Build(code), []);
  }

  method AddAll(root: Node, code: seq<Bits>)
    requires root.Valid() && root.Blank() && root.T() == FRESH
    modifies root.Repr
    ensures root.Valid() && root.Blank() && fresh(root.Repr - old(root.Repr))
    ensures root.T() == Build(code)
  {
    for i := 0 to |code|
      invariant root.Valid() && root.Blank() && fresh(root.Repr - old(root.Repr))
      invariant root.T() == Build(code[..i])
    {
      root.Add(i, code[i]);
      assert code[..i + 1][..i] == code[..i];
    }
    assert code[..|code|] == code;
  }
}
