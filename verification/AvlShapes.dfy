/** The tree as a value: what src/storage/avl_tree.h's linked nodes mean.

    A Tree is the shape hanging below a pointer, a Ctx is everything around that pointer (a zipper): the path of
    parent links up to the root with the other child of every node passed. */
module AvlShapes {
  datatype Tree<N> = E | T(l: Tree<N>, n: N, r: Tree<N>)
  datatype Ctx<N> = Top | Left(n: N, r: Tree<N>, up: Ctx<N>) | Right(l: Tree<N>, n: N, up: Ctx<N>)

  function Max(a: nat, b: nat): nat { if a > b then a else b }

  function Height<N>(t: Tree<N>): nat
  {
    match t case E => 0 case T(l, _, r) => 1 + Max(Height(l), Height(r))
  }

  function Size<N>(t: Tree<N>): nat
  {
    match t case E => 0 case T(l, _, r) => 1 + Size(l) + Size(r)
  }

  function Inorder<N>(t: Tree<N>): seq<N>
  {
    match t case E => [] case T(l, n, r) => Inorder(l) + [n] + Inorder(r)
  }

  ghost function Nodes<N>(t: Tree<N>): set<N>
  {
    match t case E => {} case T(l, n, r) => Nodes(l) + {n} + Nodes(r)
  }

  /** No node occurs twice. */
  ghost predicate Sep<N>(t: Tree<N>)
  {
    match t
    case E => true
    case T(l, n, r) => Sep(l) && Sep(r) && n !in Nodes(l) && n !in Nodes(r) && Nodes(l) !! Nodes(r)
  }

  /** Every balance factor is -1, 0 or 1. */
  predicate Avl<N>(t: Tree<N>)
  {
    match t
    case E => true
    case T(l, _, r) => Avl(l) && Avl(r) && Height(l) <= Height(r) + 1 && Height(r) <= Height(l) + 1
  }

  predicate CanRotateLeft<N>(t: Tree<N>) { t.T? && t.r.T? }
  predicate CanRotateRight<N>(t: Tree<N>) { t.T? && t.l.T? }

  function RotateLeft<N>(t: Tree<N>): Tree<N>
    requires CanRotateLeft(t)
  {
    T(T(t.l, t.n, t.r.l), t.r.n, t.r.r)
  }

  function RotateRight<N>(t: Tree<N>): Tree<N>
    requires CanRotateRight(t)
  {
    T(t.l.l, t.l.n, T(t.l.r, t.n, t.r))
  }

  /** The LR case: a left child leaning right is rotated first. */
  function StraightenLeft<N>(l: Tree<N>): (s: Tree<N>)
    requires l.T?
    ensures s.T?
  {
    if Height(l.l) < Height(l.r) then RotateLeft(l) else l
  }

  /** The RL case. */
  function StraightenRight<N>(r: Tree<N>): (s: Tree<N>)
    requires r.T?
    ensures s.T?
  {
    if Height(r.l) > Height(r.r) then RotateRight(r) else r
  }

  /** One step of rebalance_up at a node whose children are settled. */
  function Balance<N>(l: Tree<N>, n: N, r: Tree<N>): Tree<N>
  {
    if Height(l) > Height(r) + 1 then RotateRight(T(StraightenLeft(l), n, r))
    else if Height(r) > Height(l) + 1 then RotateLeft(T(l, n, StraightenRight(r)))
    else
      T(l, n, r)
  }

  /** The subtree hanging from the other side of the hole's owner. */
  function Sibling<N>(c: Ctx<N>): Tree<N>
    requires !c.Top?
  {
    if c.Left? then c.r else c.l
  }

  /** The owner's subtree with t in the hole. */
  function Join<N>(c: Ctx<N>, t: Tree<N>): Tree<N>
    requires !c.Top?
  {
    if c.Left? then T(t, c.n, c.r) else T(c.l, c.n, t)
  }

  /** The tree around a subtree. */
  function Plug<N>(c: Ctx<N>, t: Tree<N>): Tree<N>
  {
    if c.Top? then t else Plug(c.up, Join(c, t))
  }

  /** rebalance_up: rebalance every node from the hole's owner to the root. */
  function Rebalance<N>(c: Ctx<N>, t: Tree<N>): Tree<N>
  {
    if c.Top? then t else var j := Join(c, t); Rebalance(c.up, Balance(j.l, j.n, j.r))
  }

  /** Follow path inside the subtree that fills c's hole. */
  function Compose<N>(path: Ctx<N>, c: Ctx<N>): Ctx<N>
  {
    match path
    case Top => c
    case Left(n, r, up) => Left(n, r, Compose(up, c))
    case Right(l, n, up) => Right(l, n, Compose(up, c))
  }

  /** Nodes that come before, and after, the hole in key order. */
  function Before<N>(c: Ctx<N>): seq<N>
  {
    match c
    case Top => []
    case Left(_, _, up) => Before(up)
    case Right(l, n, up) => Before(up) + Inorder(l) + [n]
  }

  function After<N>(c: Ctx<N>): seq<N>
  {
    match c
    case Top => []
    case Left(n, r, up) => [n] + Inorder(r) + After(up)
    case Right(_, _, up) => After(up)
  }

  ghost function CtxNodes<N>(c: Ctx<N>): set<N>
  {
    if c.Top? then {} else {c.n} + Nodes(Sibling(c)) + CtxNodes(c.up)
  }

  ghost predicate CtxSep<N>(c: Ctx<N>)
  {
    c.Top? ||
    (var t := Sibling(c);
     && Sep(t) && CtxSep(c.up) && c.n !in Nodes(t) && c.n !in CtxNodes(c.up) && Nodes(t) !! CtxNodes(c.up))
  }

  /** The context is balanced around a hole of height h. */
  predicate CtxAvl<N>(c: Ctx<N>, h: nat)
  {
    c.Top? ||
    (var t := Sibling(c);
     Avl(t) && Height(t) <= h + 1 && h <= Height(t) + 1 && CtxAvl(c.up, 1 + Max(h, Height(t))))
  }

  lemma {:induction false} InorderSize<N>(t: Tree<N>)
    ensures |Inorder(t)| == Size(t)
  {
    if t.T? {
      InorderSize(t.l);
      InorderSize(t.r);
    }
  }

  lemma {:induction false} InorderNodes<N>(t: Tree<N>, x: N)
    ensures x in Inorder(t) <==> x in Nodes(t)
  {
    if t.T? {
      InorderNodes(t.l, x);
      InorderNodes(t.r, x);
    }
  }

  lemma {:induction false} PlugInorder<N>(c: Ctx<N>, t: Tree<N>)
    ensures Inorder(Plug(c, t)) == Before(c) + Inorder(t) + After(c)
  {
    match c
    case Top =>
    case Left(n, r, up) =>
      PlugInorder(up, T(t, n, r));
      Reassociate(Before(up), Inorder(t), n, Inorder(r), After(up));
    case Right(l, n, up) =>
      PlugInorder(up, T(l, n, t));
      Reassociate(Before(up), Inorder(l), n, Inorder(t), After(up));
  }

  lemma {:induction false} PlugSep<N>(c: Ctx<N>, t: Tree<N>)
    ensures Nodes(Plug(c, t)) == CtxNodes(c) + Nodes(t)
    ensures Sep(Plug(c, t)) <==> Sep(t) && CtxSep(c) && Nodes(t) !! CtxNodes(c)
  {
    if !c.Top? {
      PlugSep(c.up, Join(c, t));
    }
  }

  lemma JoinAvl<N>(c: Ctx<N>, t: Tree<N>)
    requires !c.Top?
    ensures Height(Join(c, t)) == 1 + Max(Height(t), Height(Sibling(c)))
    ensures Avl(Join(c, t)) <==>
            Avl(t) && Avl(Sibling(c)) && Height(t) <= Height(Sibling(c)) + 1 && Height(Sibling(c)) <= Height(t) + 1
  {
  }

  lemma {:induction false} PlugAvl<N>(c: Ctx<N>, t: Tree<N>)
    ensures Avl(Plug(c, t)) <==> Avl(t) && CtxAvl(c, Height(t))
  {
    if !c.Top? {
      JoinAvl(c, t);
      PlugAvl(c.up, Join(c, t));
    }
  }

  /** Rebalancing one node keeps the nodes and their order. */
  lemma BalanceInorder<N>(l: Tree<N>, n: N, r: Tree<N>)
    ensures Inorder(Balance(l, n, r)) == Inorder(T(l, n, r))
    ensures Nodes(Balance(l, n, r)) == Nodes(T(l, n, r))
    ensures Sep(Balance(l, n, r)) <==> Sep(T(l, n, r))
  {
    if Height(l) > Height(r) + 1 {
      if Height(l.l) < Height(l.r) { RotateLeftInorder(l); }
      RotateRightInorder(T(StraightenLeft(l), n, r));
    } else if Height(r) > Height(l) + 1 {
      if Height(r.l) > Height(r.r) { RotateRightInorder(r); }
      RotateLeftInorder(T(l, n, StraightenRight(r)));
    }
  }

  lemma RotateLeftInorder<N>(t: Tree<N>)
    requires CanRotateLeft(t)
    ensures Inorder(RotateLeft(t)) == Inorder(t) && Nodes(RotateLeft(t)) == Nodes(t)
    ensures Sep(RotateLeft(t)) <==> Sep(t)
  {
    var a, x, b, y, c := t.l, t.n, t.r.l, t.r.n, t.r.r;
    assert Inorder(T(a, x, b)) + [y] + Inorder(c) == Inorder(a) + [x] + Inorder(T(b, y, c));
  }

  lemma RotateRightInorder<N>(t: Tree<N>)
    requires CanRotateRight(t)
    ensures Inorder(RotateRight(t)) == Inorder(t) && Nodes(RotateRight(t)) == Nodes(t)
    ensures Sep(RotateRight(t)) <==> Sep(t)
  {
    var a, x, b, y, c := t.l.l, t.l.n, t.l.r, t.n, t.r;
    assert Inorder(a) + [x] + Inorder(T(b, y, c)) == Inorder(T(a, x, b)) + [y] + Inorder(c);
  }

  /** Rebalancing one node with children at most two apart restores balance; the height is the taller child's or one
      more. */
  lemma BalanceAvl<N>(l: Tree<N>, n: N, r: Tree<N>)
    requires Avl(l) && Avl(r) && Height(l) <= Height(r) + 2 && Height(r) <= Height(l) + 2
    ensures Avl(Balance(l, n, r))
    ensures Max(Height(l), Height(r)) <= Height(Balance(l, n, r)) <= 1 + Max(Height(l), Height(r))
    ensures Height(l) <= Height(r) + 1 && Height(r) <= Height(l) + 1 ==> Balance(l, n, r) == T(l, n, r)
  {
    if Height(l) == Height(r) + 2 {
      BalanceLeftHeavy(l, n, r);
    } else if Height(r) == Height(l) + 2 {
      BalanceRightHeavy(l, n, r);
    }
  }

  lemma BalanceLeftHeavy<N>(l: Tree<N>, n: N, r: Tree<N>)
    requires Avl(l) && Avl(r) && Height(l) == Height(r) + 2
    ensures Avl(Balance(l, n, r)) && Height(l) <= Height(Balance(l, n, r)) <= 1 + Height(l)
  {
    if Height(l.l) < Height(l.r) {
      assert Balance(l, n, r) == T(T(l.l, l.n, l.r.l), l.r.n, T(l.r.r, n, r));
      assert Avl(T(l.l, l.n, l.r.l)) && Height(T(l.l, l.n, l.r.l)) == Height(r) + 1;
      assert Avl(T(l.r.r, n, r)) && Height(T(l.r.r, n, r)) == Height(r) + 1;
    } else {
      assert Balance(l, n, r) == T(l.l, l.n, T(l.r, n, r));
      assert Avl(T(l.r, n, r));
    }
  }

  lemma BalanceRightHeavy<N>(l: Tree<N>, n: N, r: Tree<N>)
    requires Avl(l) && Avl(r) && Height(r) == Height(l) + 2
    ensures Avl(Balance(l, n, r)) && Height(r) <= Height(Balance(l, n, r)) <= 1 + Height(r)
  {
    if Height(r.l) > Height(r.r) {
      assert Balance(l, n, r) == T(T(l, n, r.l.l), r.l.n, T(r.l.r, r.n, r.r));
      assert Avl(T(l, n, r.l.l)) && Height(T(l, n, r.l.l)) == Height(l) + 1;
      assert Avl(T(r.l.r, r.n, r.r)) && Height(T(r.l.r, r.n, r.r)) == Height(l) + 1;
    } else {
      assert Balance(l, n, r) == T(T(l, n, r.l), r.n, r.r);
      assert Avl(T(l, n, r.l));
    }
  }

  /** One rebalanced node changes its subtree's height by at most one when a child's height changed by at most one. */
  lemma RebalancedChild<N>(l: Tree<N>, n: N, r: Tree<N>, hl: nat, hr: nat) returns (b: Tree<N>)
    requires Avl(l) && Avl(r) && hl <= hr + 1 && hr <= hl + 1
    requires hl == Height(l) || hr == Height(r)
    requires Height(l) <= hl + 1 && hl <= Height(l) + 1 && Height(r) <= hr + 1 && hr <= Height(r) + 1
    ensures b == Balance(l, n, r) && Avl(b)
    ensures Height(b) <= 2 + Max(hl, hr) && Max(hl, hr) <= Height(b)
  {
    BalanceAvl(l, n, r);
    b := Balance(l, n, r);
  }

  /** rebalance_up restores the balance of the whole tree after the hole's subtree changed height by at most one. */
  lemma {:induction false} RebalanceAvl<N>(c: Ctx<N>, h: nat, t: Tree<N>)
    requires CtxAvl(c, h) && Avl(t) && Height(t) <= h + 1 && h <= Height(t) + 1
    ensures Avl(Rebalance(c, t))
  {
    if !c.Top? {
      var b, hp := RestoreOwner(c, h, t);
      RebalanceAvl(c.up, hp, b);
    }
  }

  /** One step up: the owner's rebalanced subtree b again differs by at most one from its height hp before. */
  lemma RestoreOwner<N>(c: Ctx<N>, h: nat, t: Tree<N>) returns (b: Tree<N>, hp: nat)
    requires !c.Top? && CtxAvl(c, h) && Avl(t) && Height(t) <= h + 1 && h <= Height(t) + 1
    ensures Rebalance(c, t) == Rebalance(c.up, b) && CtxAvl(c.up, hp)
    ensures Avl(b) && Height(b) <= hp + 1 && hp <= Height(b) + 1
  {
    var hs := Height(Sibling(c));
    hp := 1 + Max(h, hs);
    if c.Left? {
      b := RebalancedChild(t, c.n, c.r, h, hs);
    } else {
      b := RebalancedChild(c.l, c.n, t, hs, h);
    }
  }

  /** rebalance_up never changes which nodes the tree has or their order. */
  lemma {:induction false} RebalanceInorder<N>(c: Ctx<N>, t: Tree<N>)
    ensures Inorder(Rebalance(c, t)) == Before(c) + Inorder(t) + After(c)
  {
    match c
    case Top =>
    case Left(n, r, up) =>
      BalanceInorder(t, n, r);
      RebalanceInorder(up, Balance(t, n, r));
      Reassociate(Before(up), Inorder(t), n, Inorder(r), After(up));
    case Right(l, n, up) =>
      BalanceInorder(l, n, t);
      RebalanceInorder(up, Balance(l, n, t));
      Reassociate(Before(up), Inorder(l), n, Inorder(t), After(up));
  }

  lemma Reassociate<N>(a: seq<N>, b: seq<N>, n: N, c: seq<N>, d: seq<N>)
    ensures a + (b + [n] + c) + d == a + b + ([n] + c + d)
    ensures a + (b + [n] + c) + d == (a + b + [n]) + c + d
  {
  }

  lemma {:induction false} RebalanceSep<N>(c: Ctx<N>, t: Tree<N>)
    ensures Nodes(Rebalance(c, t)) == CtxNodes(c) + Nodes(t)
    ensures Sep(Rebalance(c, t)) <==> Sep(t) && CtxSep(c) && Nodes(t) !! CtxNodes(c)
  {
    if !c.Top? {
      var j := Join(c, t);
      BalanceInorder(j.l, j.n, j.r);
      RebalanceSep(c.up, Balance(j.l, j.n, j.r));
    }
  }

  function Fib(n: nat): nat
  {
    if n < 2 then n else Fib(n - 1) + Fib(n - 2)
  }

  lemma {:induction false} FibMonotone(m: nat, n: nat)
    requires m <= n
    ensures Fib(m) <= Fib(n)
    decreases n
  {
    if m < n {
      FibMonotone(m, n - 1);
    }
  }

  /** The height bound the recursion-depth comment relies on. */
  lemma {:induction false} HeightBound<N>(t: Tree<N>)
    requires Avl(t)
    ensures Fib(Height(t) + 2) <= Size(t) + 1
  {
    match t
    case E =>
    case T(l, _, r) =>
      HeightBound(l);
      HeightBound(r);
      var h := Height(t);
      if Height(l) < Height(r) {
        FibMonotone(h, Height(l) + 2);
      } else {
        FibMonotone(h, Height(r) + 2);
      }
  }

  function TwoTo(k: nat): nat { if k == 0 then 1 else 2 * TwoTo(k - 1) }

  lemma {:induction false} FibDoubles(k: nat)
    ensures TwoTo(k) <= Fib(2 * k + 2)
  {
    if k > 0 {
      FibDoubles(k - 1);
      assert Fib(2 * k + 2) == Fib(2 * k + 1) + Fib(2 * k);
      assert Fib(2 * k + 1) == Fib(2 * k) + Fib(2 * k - 1);
    }
  }

  lemma TwoTo32()
    ensures TwoTo(32) == 0x1_0000_0000
  {
    assert TwoTo(8) == 0x100;
    assert TwoTo(16) == 0x1_0000;
    assert TwoTo(24) == 0x100_0000;
  }

  /** In numbers: a tree with a path of 64 nodes has at least 2^32 - 1 of them. */
  lemma {:induction false} HeightNumbers<N>(t: Tree<N>)
    requires Avl(t) && Height(t) >= 64
    ensures Size(t) >= 0xFFFF_FFFF
  {
    HeightBound(t);
    FibDoubles(32);
    TwoTo32();
    FibMonotone(66, Height(t) + 2);
    hide Fib, TwoTo, Height, Size;
  }

  /** Where x sits: the subtree rooted at x and everything around it. */
  lemma {:induction false} FindNode<N>(c0: Ctx<N>, t: Tree<N>, x: N) returns (c: Ctx<N>, s: Tree<N>)
    requires x in Nodes(t)
    ensures Plug(c, s) == Plug(c0, t) && s.T? && s.n == x
    decreases t
  {
    if x == t.n {
      c, s := c0, t;
    } else if x in Nodes(t.l) {
      c, s := FindNode(Left(t.n, t.r, c0), t.l, x);
    } else {
      c, s := FindNode(Right(t.l, t.n, c0), t.r, x);
    }
  }

  lemma {:induction false} PlugCompose<N>(q: Ctx<N>, c: Ctx<N>, t: Tree<N>)
    ensures Plug(Compose(q, c), t) == Plug(c, Plug(q, t))
    ensures Before(Compose(q, c)) == Before(c) + Before(q) && After(Compose(q, c)) == After(q) + After(c)
    ensures CtxNodes(Compose(q, c)) == CtxNodes(q) + CtxNodes(c)
  {
    match q
    case Top =>
    case Left(n, r, up) =>
      PlugCompose(up, c, T(t, n, r));
      assert [n] + Inorder(r) + (After(up) + After(c)) == ([n] + Inorder(r) + After(up)) + After(c);
    case Right(l, n, up) =>
      PlugCompose(up, c, T(l, n, t));
      assert (Before(c) + Before(up)) + Inorder(l) + [n] == Before(c) + (Before(up) + Inorder(l) + [n]);
  }

  lemma {:induction false} ComposeSep<N>(q: Ctx<N>, c: Ctx<N>)
    ensures CtxSep(Compose(q, c)) <==> CtxSep(q) && CtxSep(c) && CtxNodes(q) !! CtxNodes(c)
  {
    if !q.Top? {
      ComposeSep(q.up, c);
      PlugCompose(q.up, c, E);
    }
  }

  /** Balance does not depend on which node sits where the path starts. */
  lemma {:induction false} ComposeAvl<N>(q: Ctx<N>, l: Tree<N>, n: N, y: N, c: Ctx<N>, h: nat)
    ensures CtxAvl(Compose(q, Right(l, n, c)), h) <==> CtxAvl(Compose(q, Right(l, y, c)), h)
  {
    if !q.Top? {
      ComposeAvl(q.up, l, n, y, c, 1 + Max(h, Height(Sibling(q))));
    }
  }

  /** The hole left where n was taken out of the tree `was`: t fills the hole of d and only balance is missing. */
  ghost predicate Hole<N>(was: Tree<N>, n: N, d: Ctx<N>, t: Tree<N>)
  {
    && Sep(t) && CtxSep(d) && Nodes(t) !! CtxNodes(d) && CtxNodes(d) + Nodes(t) == Nodes(was) - {n}
    && CtxAvl(d, Height(t) + 1) && Avl(t)
  }

  /** Taking a node with at most one child out of its place. */
  lemma DropShape<N>(c: Ctx<N>, s: Tree<N>, t: Tree<N>)
    requires s.T? && ((s.l.E? && t == s.r) || (s.r.E? && t == s.l))
    requires Sep(Plug(c, s)) && Avl(Plug(c, s))
    ensures Inorder(t) == Inorder(s.l) + Inorder(s.r) && Hole(Plug(c, s), s.n, c, t)
  {
    DropSep(c, s, t);
    PlugAvl(c, s);
  }

  lemma DropSep<N>(c: Ctx<N>, s: Tree<N>, t: Tree<N>)
    requires s.T? && ((s.l.E? && t == s.r) || (s.r.E? && t == s.l)) && Sep(Plug(c, s))
    ensures CtxNodes(c) + Nodes(t) == Nodes(Plug(c, s)) - {s.n}
    ensures Sep(t) && CtxSep(c) && Nodes(t) !! CtxNodes(c)
  {
    PlugSep(c, s);
    assert Nodes(s) == Nodes(t) + {s.n} && s.n !in Nodes(t);
  }

  /** Moving the successor y into the place of a node with two children: y's own place is left to its right subtree,
      and the chain to rebalance runs from there through y's new place. */
  lemma SpliceShape<N>(c: Ctx<N>, s: Tree<N>, q: Ctx<N>, y: N, yr: Tree<N>, d: Ctx<N>)
    requires s.T? && s.r == Plug(q, T(E, y, yr)) && Before(q) == [] && d == Compose(q, Right(s.l, y, c))
    requires Sep(Plug(c, s)) && Avl(Plug(c, s))
    ensures Before(d) + Inorder(yr) + After(d) == Before(c) + (Inorder(s.l) + Inorder(s.r)) + After(c)
    ensures Hole(Plug(c, s), s.n, d, yr)
  {
    SpliceOrder(c, s.l, s.r, q, y, yr, d);
    SpliceSep(c, s, q, y, yr, d);
    SpliceAvl(c, s, q, y, yr, d);
  }

  lemma SpliceAvl<N>(c: Ctx<N>, s: Tree<N>, q: Ctx<N>, y: N, yr: Tree<N>, d: Ctx<N>)
    requires s.T? && s.r == Plug(q, T(E, y, yr)) && d == Compose(q, Right(s.l, y, c)) && Avl(Plug(c, s))
    ensures CtxAvl(d, Height(yr) + 1) && Avl(yr)
  {
    var d0 := Compose(q, Right(s.l, s.n, c));
    PlugCompose(q, Right(s.l, s.n, c), T(E, y, yr));
    PlugAvl(d0, T(E, y, yr));
    ComposeAvl(q, s.l, s.n, y, c, Height(yr) + 1);
  }

  lemma SpliceOrder<N>(c: Ctx<N>, l: Tree<N>, r: Tree<N>, q: Ctx<N>, y: N, yr: Tree<N>, d: Ctx<N>)
    requires r == Plug(q, T(E, y, yr)) && Before(q) == [] && d == Compose(q, Right(l, y, c))
    ensures Before(d) + Inorder(yr) + After(d) == Before(c) + (Inorder(l) + Inorder(r)) + After(c)
  {
    SpliceBounds(c, l, q, y, d);
    SuccessorFirst(q, y, yr);
    SpliceSeq(Before(d), After(d), Inorder(r), Before(c), Inorder(l), y, Inorder(yr), After(q), After(c));
  }

  lemma SpliceBounds<N>(c: Ctx<N>, l: Tree<N>, q: Ctx<N>, y: N, d: Ctx<N>)
    requires Before(q) == [] && d == Compose(q, Right(l, y, c))
    ensures Before(d) == Before(c) + Inorder(l) + [y] && After(d) == After(q) + After(c)
  {
    PlugCompose(q, Right(l, y, c), E);
    assert Before(d) == Before(Right(l, y, c));
  }

  lemma SuccessorFirst<N>(q: Ctx<N>, y: N, yr: Tree<N>)
    requires Before(q) == []
    ensures Inorder(Plug(q, T(E, y, yr))) == [y] + Inorder(yr) + After(q)
  {
    PlugInorder(q, T(E, y, yr));
    assert Inorder(T(E, y, yr)) == [y] + Inorder(yr);
  }

  lemma SpliceSeq<N>(bd: seq<N>, ad: seq<N>, r: seq<N>, a: seq<N>, l: seq<N>, y: N, b: seq<N>, d: seq<N>, e: seq<N>)
    requires bd == a + l + [y] && ad == d + e && r == [y] + b + d
    ensures bd + b + ad == a + (l + r) + e
  {
  }

  lemma SpliceSep<N>(c: Ctx<N>, s: Tree<N>, q: Ctx<N>, y: N, yr: Tree<N>, d: Ctx<N>)
    requires s.T? && s.r == Plug(q, T(E, y, yr)) && d == Compose(q, Right(s.l, y, c)) && Sep(Plug(c, s))
    ensures CtxNodes(d) + Nodes(yr) == Nodes(Plug(c, s)) - {s.n}
    ensures Sep(yr) && CtxSep(d) && Nodes(yr) !! CtxNodes(d)
  {
    PlugSep(c, s);
    SuccessorSep(q, y, yr);
    ComposeSep(q, Right(s.l, y, c));
    PlugCompose(q, Right(s.l, y, c), yr);
    SpliceSets(Nodes(s), s.n, Nodes(s.l), Nodes(s.r), CtxNodes(q), y, Nodes(yr), CtxNodes(c));
  }

  lemma SuccessorSep<N>(q: Ctx<N>, y: N, yr: Tree<N>)
    ensures Nodes(Plug(q, T(E, y, yr))) == CtxNodes(q) + {y} + Nodes(yr)
    ensures Sep(Plug(q, T(E, y, yr))) ==>
              Sep(yr) && CtxSep(q) && y !in Nodes(yr) && y !in CtxNodes(q) && Nodes(yr) !! CtxNodes(q)
  {
    PlugSep(q, T(E, y, yr));
    assert Nodes(T(E, y, yr)) == {y} + Nodes(yr);
  }

  lemma SpliceSets<N>(s: set<N>, n: N, l: set<N>, r: set<N>, q: set<N>, y: N, yr: set<N>, c: set<N>)
    requires s == l + {n} + r && r == q + {y} + yr && n !in l && n !in r && l !! r && s !! c
    requires y !in yr && y !in q && yr !! q
    ensures y !in l && y !in c && l !! c && q !! {y} + l + c && yr !! q + ({y} + l + c)
    ensures (q + ({y} + l + c)) + yr == (c + s) - {n}
  {
  }

  /** The tree insert leaves behind after hanging x in the empty slot c. */
  lemma InsertShape<N>(c: Ctx<N>, x: N, r: Tree<N>)
    requires Sep(Plug(c, E)) && Avl(Plug(c, E)) && x !in Nodes(Plug(c, E)) && r == Rebalance(c, T(E, x, E))
    ensures Avl(r) && Sep(r) && Nodes(r) == Nodes(Plug(c, E)) + {x} && Size(r) == Size(Plug(c, E)) + 1
    ensures Inorder(r) == Before(c) + [x] + After(c) && Inorder(Plug(c, E)) == Before(c) + After(c)
    ensures CtxSep(c) && x !in CtxNodes(c) && CtxNodes(c) == Nodes(Plug(c, E))
  {
    PlugAvl(c, E);
    RebalanceAvl(c, 0, T(E, x, E));
    InsertOrder(c, x);
    PlugSep(c, E);
    RebalanceSep(c, T(E, x, E));
    assert Nodes<N>(E) == {} && Nodes(T(E, x, E)) == {x};
  }

  lemma InsertOrder<N>(c: Ctx<N>, x: N)
    ensures Inorder(Rebalance(c, T(E, x, E))) == Before(c) + [x] + After(c)
    ensures Inorder(Plug(c, E)) == Before(c) + After(c)
    ensures Size(Rebalance(c, T(E, x, E))) == Size(Plug(c, E)) + 1
  {
    RebalanceInorder(c, T(E, x, E));
    assert Inorder(T(E, x, E)) == [x];
    PlugInorder(c, E);
    assert Before(c) + [] + After(c) == Before(c) + After(c);
    InorderSize(Plug(c, E));
    InorderSize(Rebalance(c, T(E, x, E)));
  }

  /** Rebalancing above the hole an erased node left. */
  lemma HoleSettled<N>(was: Tree<N>, n: N, d: Ctx<N>, t: Tree<N>)
    requires Hole(was, n, d, t)
    ensures Avl(Rebalance(d, t)) && Sep(Rebalance(d, t)) && Nodes(Rebalance(d, t)) == Nodes(was) - {n}
    ensures Inorder(Rebalance(d, t)) == Before(d) + Inorder(t) + After(d)
    ensures Size(Rebalance(d, t)) == |Before(d) + Inorder(t) + After(d)|
  {
    RebalanceAvl(d, Height(t) + 1, t);
    RebalanceInorder(d, t);
    RebalanceSep(d, t);
    InorderSize(Rebalance(d, t));
  }
}
