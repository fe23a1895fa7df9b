/** Read-only cursors over the tree: the fast forms of operations on the sorted node sequence
    (src/storage/avl_tree.h, and the descent of src/commands/cmd_zset.cpp that skips score ties). */
module AvlQueries {
  import opened AvlShapes
  import opened AvlLinks
  import opened AvlTrees

  /** The i-th node in key order, or NULL past the end. */
  function NodeAt(s: seq<Ref>, i: nat): Ref { if i < |s| then s[i] else NULL }

  /** Once p holds for a node it holds for every later one. */
  ghost predicate Upward<K(!new)>(p: K -> bool, keys: map<Ref, K>, s: seq<Ref>)
    requires forall i :: 0 <= i < |s| ==> s[i] in keys
  {
    forall i, j :: 0 <= i < j < |s| && p(keys[s[i]]) ==> p(keys[s[j]])
  }

  ghost predicate None<K(!new)>(p: K -> bool, keys: map<Ref, K>, s: seq<Ref>)
  {
    forall i :: 0 <= i < |s| ==> s[i] in keys && !p(keys[s[i]])
  }

  ghost predicate All<K(!new)>(p: K -> bool, keys: map<Ref, K>, s: seq<Ref>)
  {
    forall i :: 0 <= i < |s| ==> s[i] in keys && p(keys[s[i]])
  }

  lemma UpwardSplit<K(!new)>(p: K -> bool, keys: map<Ref, K>, a: seq<Ref>, x: Ref, b: seq<Ref>)
    requires forall i :: 0 <= i < |a + [x] + b| ==> (a + [x] + b)[i] in keys
    requires Upward(p, keys, a + [x] + b)
    ensures x in keys
    ensures p(keys[x]) ==> All(p, keys, [x] + b)
    ensures !p(keys[x]) ==> None(p, keys, a + [x])
  {
    var s := a + [x] + b;
    assert s[|a|] == x;
    assert forall i :: 0 <= i < |a| ==> s[i] == (a + [x])[i];
    assert forall i :: 0 < i < |[x] + b| ==> s[|a| + i] == ([x] + b)[i];
  }

  /** One step of the descent: where the first satisfying node can still be. */
  lemma UpwardStep<K(!new)>(p: K -> bool, keys: map<Ref, K>, c: Ctx<Ref>, t: Tree<Ref>)
    requires t.T?
    requires forall i :: 0 <= i < |Inorder(Plug(c, t))| ==> Inorder(Plug(c, t))[i] in keys
    requires Upward(p, keys, Inorder(Plug(c, t)))
    ensures t.n in keys
    ensures p(keys[t.n]) ==> All(p, keys, After(Left(t.n, t.r, c)))
    ensures !p(keys[t.n]) ==> None(p, keys, Before(Right(t.l, t.n, c)))
  {
    PlugInorder(c, t);
    Around(Before(c), Inorder(t.l), t.n, Inorder(t.r), After(c));
    UpwardSplit(p, keys, Before(c) + Inorder(t.l), t.n, Inorder(t.r) + After(c));
    assert After(Left(t.n, t.r, c)) == [t.n] + (Inorder(t.r) + After(c));
  }

  /** From the root down: first node in key order whose key satisfies an upward-closed condition, or NULL. */
  method FirstWhere<K(!new, ==)>(tree: AvlTree<K>, root: Ref, p: K -> bool) returns (x: Ref, ghost i: nat)
    requires tree.Valid() && root == tree.root && Upward(p, tree.keys, Inorder(tree.shape))
    ensures i <= |Inorder(tree.shape)| && x == NodeAt(Inorder(tree.shape), i)
    ensures None(p, tree.keys, Inorder(tree.shape)[..i]) && All(p, tree.keys, Inorder(tree.shape)[i..])
    ensures IsFirst(tree, p, x)
  {
    var cur := root;
    x := NULL;
    ghost var c, t := Top, tree.shape;
    while cur != NULL
      invariant Plug(c, t) == tree.shape && cur == Root(t) && Linked(tree.cells, t, Owner(c, NULL))
      invariant None(p, tree.keys, Before(c)) && All(p, tree.keys, After(c)) && x == NodeAt(After(c), 0)
      decreases t
    {
      LinkedCell(tree.cells, t, Owner(c, NULL));
      UpwardStep(p, tree.keys, c, t);
      if p(tree.keys[cur]) {
        x := cur;
        c, t := Left(cur, t.r, c), t.l;
        cur := tree.cells[cur].left;
      } else {
        c, t := Right(t.l, cur, c), t.r;
        cur := tree.cells[cur].right;
      }
    }
    LinkedCell(tree.cells, t, Owner(c, NULL));
    PlugInorder(c, t);
    i := |Before(c)|;
    assert Inorder(tree.shape) == Before(c) + After(c);
    assert Inorder(tree.shape)[..i] == Before(c) && Inorder(tree.shape)[i..] == After(c);
    FirstAt(tree, p, x, i);
  }

  /** x holds the least key satisfying p; NULL if none does. */
  ghost predicate IsFirst<K(!new)>(tree: AvlTree<K>, p: K -> bool, x: Ref)
    reads tree
  {
    if x == NULL then forall y :: y in tree.keys ==> !p(tree.keys[y])
    else x in tree.keys && p(tree.keys[x]) &&
         forall y :: y in tree.keys && p(tree.keys[y]) && y != x ==> tree.less(tree.keys[x], tree.keys[y])
  }

  lemma FirstAt<K(!new)>(tree: AvlTree<K>, p: K -> bool, x: Ref, i: nat)
    requires tree.Valid() && i <= |Inorder(tree.shape)| && x == NodeAt(Inorder(tree.shape), i)
    requires None(p, tree.keys, Inorder(tree.shape)[..i]) && All(p, tree.keys, Inorder(tree.shape)[i..])
    ensures IsFirst(tree, p, x)
  {
    var s := Inorder(tree.shape);
    if i < |s| {
      NotNull(tree, i);
      assert s[i..][0] == s[i];
    }
    forall y | y in tree.keys ensures exists j :: 0 <= j < |s| && s[j] == y && (p(tree.keys[y]) <==> i <= j) {
      InorderNodes(tree.shape, y);
      var j :| 0 <= j < |s| && s[j] == y;
      if j < i {
        assert s[..i][j] == y;
      } else {
        assert s[i..][j - i] == y;
      }
    }
  }

  /** Smallest key not below `key`. */
  method LowerBound<K(!new, ==)>(tree: AvlTree<K>, key: K) returns (x: Ref, ghost i: nat)
    requires tree.Valid()
    ensures i <= |Inorder(tree.shape)| && x == NodeAt(Inorder(tree.shape), i)
    ensures AllBelow(tree.less, tree.keys, Inorder(tree.shape)[..i], key)
    ensures forall j :: i <= j < |Inorder(tree.shape)| ==> !tree.less(tree.keys[Inorder(tree.shape)[j]], key)
    ensures x == NULL ==> forall y :: y in tree.keys ==> tree.less(tree.keys[y], key)
    ensures x != NULL ==> x in tree.keys && !tree.less(tree.keys[x], key)
    ensures x != NULL ==> forall y :: y in tree.keys && y != x && !tree.less(tree.keys[y], key) ==> tree.less(tree.keys[x], tree.keys[y])
  {
    var less := tree.less;
    var p := (k: K) => !less(k, key);
    x, i := FirstWhere(tree, tree.root, p);
    ghost var s := Inorder(tree.shape);
    assert forall j :: i <= j < |s| ==> s[j] == s[i..][j - i];
  }

  /** A node's position is fixed by its surroundings. */
  lemma Place(c: Ctx<Ref>, t: Tree<Ref>)
    requires t.T?
    ensures var s, i := Inorder(Plug(c, t)), |Before(c)| + Size(t.l);
            && i < |s| && s[i] == t.n && |s| == |Before(c)| + Size(t) + |After(c)|
            && s[i + 1..] == Inorder(t.r) + After(c) && s[..i] == Before(c) + Inorder(t.l)
  {
    PlugInorder(c, t);
    InorderSize(t.l);
    InorderSize(t);
    Around(Before(c), Inorder(t.l), t.n, Inorder(t.r), After(c));
  }

  lemma Position<K(!new)>(less: (K, K) -> bool, keys: map<Ref, K>, c: Ctx<Ref>, t: Tree<Ref>)
    requires t.T? && StrictOrder(less) && Ascending(less, keys, Inorder(Plug(c, t)))
    ensures var s, i := Inorder(Plug(c, t)), |Before(c)| + Size(t.l);
            && i < |s| && s[i] == t.n
            && (forall j :: 0 <= j < |s| && s[j] == t.n ==> j == i)
            && s[i + 1..] == Inorder(t.r) + After(c) && s[..i] == Before(c) + Inorder(t.l)
  {
    Place(c, t);
  }

  /** Moving the focus up one link. */
  lemma Climb(m: Arena, c: Ctx<Ref>, u: Tree<Ref>)
    requires !c.Top? && u.T? && Linked(m, Plug(c, u), NULL) && Sep(Plug(c, u))
    ensures c.n in m && c.n != NULL && Plug(c.up, Join(c, u)) == Plug(c, u) && Join(c, u).n == c.n
    ensures Root(u) == m[c.n].right <==> c.Right?
    ensures Root(u) == m[c.n].left <==> c.Left?
    ensures m[c.n].parent == Owner(c.up, NULL) && u.n in m && m[u.n].parent == c.n
    ensures c.Right? ==> m[c.n].left == Root(c.l) && Linked(m, c.l, c.n)
  {
    Focus(m, c, u, NULL);
    PlugSep(c, u);
    var w := Sibling(c);
    assert w.T? ==> w.n in Nodes(w);
    assert u.n in Nodes(u);
  }

  lemma NotNull<K(!new)>(tree: AvlTree<K>, i: nat)
    requires tree.Structure() && i < |Inorder(tree.shape)|
    ensures Inorder(tree.shape)[i] != NULL && Inorder(tree.shape)[i] in tree.keys
  {
    LinkedIn(tree.cells, tree.shape, NULL);
    InorderNodes(tree.shape, Inorder(tree.shape)[i]);
  }

  /** Number of keys before x's: counts left siblings on the way up. */
  method Rank<K(!new, ==)>(tree: AvlTree<K>, x: Ref) returns (r: nat)
    requires tree.Valid() && x in tree.keys
    ensures r < |Inorder(tree.shape)| && Inorder(tree.shape)[r] == x
    ensures forall i :: 0 <= i < |Inorder(tree.shape)| && Inorder(tree.shape)[i] == x ==> i == r
  {
    ghost var c, u := FindNode(Top, tree.shape, x);
    Focus(tree.cells, c, u, NULL);
    LinkedCell(tree.cells, u.l, x);
    ghost var at := |Before(c)| + Size(u.l);
    Position(tree.less, tree.keys, c, u);
    r := tree.SubtreeSize(tree.cells[x].left);
    var cur := x;
    while tree.cells[cur].parent != NULL
      invariant Plug(c, u) == tree.shape && u.T? && cur == u.n && cur in tree.cells
      invariant tree.cells[cur].parent == Owner(c, NULL)
      invariant r + |Before(c)| == at
      decreases c
    {
      var p := tree.cells[cur].parent;
      Climb(tree.cells, c, u);
      if cur == tree.cells[p].right {
        LinkedCell(tree.cells, c.l, p);
        InorderSize(c.l);
        r := r + tree.SubtreeSize(tree.cells[p].left) + 1;
      }
      u, c := Join(c, u), c.up;
      cur := p;
    }
    if !c.Top? { Climb(tree.cells, c, u); }
  }

  /** The node at a 0-based position, or NULL past the end. */
  method Select<K(!new, ==)>(tree: AvlTree<K>, rank: nat) returns (x: Ref)
    requires tree.Structure()
    ensures x == NodeAt(Inorder(tree.shape), rank)
  {
    var cur := tree.root;
    var k: nat := rank;
    ghost var c, t, n := Top, tree.shape, |Inorder(tree.shape)|;
    InorderSize(t);
    while cur != NULL
      invariant Plug(c, t) == tree.shape && cur == Root(t) && Linked(tree.cells, t, Owner(c, NULL))
      invariant rank == |Before(c)| + k && (k < Size(t) <==> rank < n)
      decreases t
    {
      LinkedCell(tree.cells, t, Owner(c, NULL));
      LinkedCell(tree.cells, t.l, cur);
      InorderSize(t.l);
      var leftSize := tree.SubtreeSize(tree.cells[cur].left);
      if k < leftSize {
        c, t := Left(cur, t.r, c), t.l;
        cur := tree.cells[cur].left;
      } else if k == leftSize {
        Place(c, t);
        return cur;
      } else {
        k := k - (leftSize + 1);
        c, t := Right(t.l, cur, c), t.r;
        cur := tree.cells[cur].right;
      }
    }
    LinkedCell(tree.cells, t, Owner(c, NULL));
    x := NULL;
  }

  /** What the parent link of a focused node says. */
  lemma ParentLink(m: Arena, c: Ctx<Ref>, u: Tree<Ref>)
    requires u.T? && Linked(m, Plug(c, u), NULL) && Sep(Plug(c, u))
    ensures u.n in m && m[u.n].parent == Owner(c, NULL) && (Owner(c, NULL) == NULL <==> c.Top?)
    ensures !c.Top? ==> c.n in m && (u.n == m[c.n].right <==> c.Right?) && (u.n == m[c.n].left <==> c.Left?)
  {
    if !c.Top? { Climb(m, c, u); }
  }

  /** Climbs out of right children: the first ancestor that has the start in its left subtree. */
  method ClimbRight<K(!new, ==)>(tree: AvlTree<K>, x: Ref, ghost c0: Ctx<Ref>, ghost u0: Tree<Ref>) returns (y: Ref)
    requires tree.Structure() && Plug(c0, u0) == tree.shape && u0.T? && x == u0.n
    ensures y == NodeAt(After(c0), 0)
  {
    var cur := x;
    ghost var c, u := c0, u0;
    ParentLink(tree.cells, c, u);
    while tree.cells[cur].parent != NULL && cur == tree.cells[tree.cells[cur].parent].right
      invariant Plug(c, u) == tree.shape && u.T? && cur == u.n && cur in tree.cells
      invariant tree.cells[cur].parent == Owner(c, NULL) && (Owner(c, NULL) == NULL <==> c.Top?)
      invariant !c.Top? ==> c.n in tree.cells && (cur == tree.cells[c.n].right <==> c.Right?)
      invariant After(c) == After(c0)
      decreases c
    {
      u, c := Join(c, u), c.up;
      cur := tree.cells[cur].parent;
      ParentLink(tree.cells, c, u);
    }
    y := tree.cells[cur].parent;
  }

  /** Climbs out of left children: the first ancestor that has the start in its right subtree. */
  method ClimbLeft<K(!new, ==)>(tree: AvlTree<K>, x: Ref, ghost c0: Ctx<Ref>, ghost u0: Tree<Ref>) returns (y: Ref)
    requires tree.Structure() && Plug(c0, u0) == tree.shape && u0.T? && x == u0.n
    ensures y == LastOf(Before(c0))
  {
    var cur := x;
    ghost var c, u := c0, u0;
    ParentLink(tree.cells, c, u);
    while tree.cells[cur].parent != NULL && cur == tree.cells[tree.cells[cur].parent].left
      invariant Plug(c, u) == tree.shape && u.T? && cur == u.n && cur in tree.cells
      invariant tree.cells[cur].parent == Owner(c, NULL) && (Owner(c, NULL) == NULL <==> c.Top?)
      invariant !c.Top? ==> c.n in tree.cells && (cur == tree.cells[c.n].left <==> c.Left?)
      invariant Before(c) == Before(c0)
      decreases c
    {
      u, c := Join(c, u), c.up;
      cur := tree.cells[cur].parent;
      ParentLink(tree.cells, c, u);
    }
    y := tree.cells[cur].parent;
  }

  function LastOf(s: seq<Ref>): Ref { if s == [] then NULL else s[|s| - 1] }

  /** The node after x in key order, or NULL. */
  method Next<K(!new, ==)>(tree: AvlTree<K>, x: Ref) returns (y: Ref)
    requires tree.Valid() && x in tree.keys
    ensures forall i :: 0 <= i < |Inorder(tree.shape)| && Inorder(tree.shape)[i] == x ==>
                        y == NodeAt(Inorder(tree.shape), i + 1)
  {
    ghost var c, u := FindNode(Top, tree.shape, x);
    y := NextAround(tree, x, c, u);
    Position(tree.less, tree.keys, c, u);
    ghost var s, i := Inorder(tree.shape), |Before(c)| + Size(u.l);
    assert i + 1 < |s| ==> s[i + 1] == s[i + 1..][0];
  }

  method NextAround<K(!new, ==)>(tree: AvlTree<K>, x: Ref, ghost c: Ctx<Ref>, ghost u: Tree<Ref>) returns (y: Ref)
    requires tree.Structure() && Plug(c, u) == tree.shape && u.T? && u.n == x
    ensures y == NodeAt(Inorder(u.r) + After(c), 0)
  {
    Focus(tree.cells, c, u, NULL);
    LinkedCell(tree.cells, u.r, x);
    if tree.cells[x].right != NULL {
      ghost var q, yr;
      y, q, yr := tree.Leftmost(tree.cells[x].right, u.r, x);
      SuccessorFirst(q, y, yr);
    } else {
      y := ClimbRight(tree, x, c, u);
    }
  }

  method Rightmost<K(!new, ==)>(tree: AvlTree<K>, x: Ref, ghost t: Tree<Ref>, ghost p: Ref) returns (y: Ref)
    requires t.T? && x == t.n && Linked(tree.cells, t, p)
    ensures Inorder(t) != [] && y == LastOf(Inorder(t))
  {
    y := x;
    ghost var u, q := t, p;
    while tree.cells[y].right != NULL
      invariant u.T? && y == u.n && Linked(tree.cells, u, q) && LastOf(Inorder(u)) == LastOf(Inorder(t))
      decreases u
    {
      LinkedCell(tree.cells, u.r, y);
      assert Inorder(u.r) != [];
      u, q := u.r, y;
      y := tree.cells[y].right;
    }
    LinkedCell(tree.cells, u.r, y);
  }

  /** The same step, for a caller that knows the position. */
  method NextAt<K(!new, ==)>(tree: AvlTree<K>, x: Ref, ghost i: nat) returns (y: Ref)
    requires tree.Structure() && i < |Inorder(tree.shape)| && Inorder(tree.shape)[i] == x
    ensures y == NodeAt(Inorder(tree.shape), i + 1)
  {
    InorderSize(tree.shape);
    ghost var c, u := FindAt(Top, tree.shape, i);
    Place(c, u);
    y := NextAround(tree, x, c, u);
    ghost var s := Inorder(tree.shape);
    assert i + 1 < |s| ==> s[i + 1] == s[i + 1..][0];
  }

  lemma {:induction false} FindAt(c0: Ctx<Ref>, t: Tree<Ref>, i: nat) returns (c: Ctx<Ref>, u: Tree<Ref>)
    requires i < Size(t)
    ensures Plug(c, u) == Plug(c0, t) && u.T? && |Before(c)| + Size(u.l) == |Before(c0)| + i
    decreases t
  {
    InorderSize(t.l);
    if i < Size(t.l) {
      c, u := FindAt(Left(t.n, t.r, c0), t.l, i);
    } else if i == Size(t.l) {
      c, u := c0, t;
    } else {
      c, u := FindAt(Right(t.l, t.n, c0), t.r, i - Size(t.l) - 1);
    }
  }

  /** The node before x in key order, or NULL. */
  method Prev<K(!new, ==)>(tree: AvlTree<K>, x: Ref) returns (y: Ref)
    requires tree.Valid() && x in tree.keys
    ensures forall i :: 0 <= i < |Inorder(tree.shape)| && Inorder(tree.shape)[i] == x ==>
                        y == if i == 0 then NULL else Inorder(tree.shape)[i - 1]
  {
    ghost var c, u := FindNode(Top, tree.shape, x);
    y := PrevAround(tree, x, c, u);
    Position(tree.less, tree.keys, c, u);
    ghost var s, i := Inorder(tree.shape), |Before(c)| + Size(u.l);
    assert i > 0 ==> s[i - 1] == s[..i][i - 1];
  }

  method PrevAround<K(!new, ==)>(tree: AvlTree<K>, x: Ref, ghost c: Ctx<Ref>, ghost u: Tree<Ref>) returns (y: Ref)
    requires tree.Structure() && Plug(c, u) == tree.shape && u.T? && u.n == x
    ensures y == LastOf(Before(c) + Inorder(u.l))
  {
    Focus(tree.cells, c, u, NULL);
    LinkedCell(tree.cells, u.l, x);
    if tree.cells[x].left != NULL {
      y := Rightmost(tree, tree.cells[x].left, u.l, x);
    } else {
      y := ClimbLeft(tree, x, c, u);
    }
  }

  /** The node holding the key, or NULL. */
  method Find<K(!new, ==)>(tree: AvlTree<K>, key: K) returns (x: Ref)
    requires tree.Valid()
    ensures if key in tree.keys.Values then x in tree.keys && x != NULL && tree.keys[x] == key else x == NULL
  {
    var cur, parent, wentLeft;
    ghost var c, t;
    cur, parent, wentLeft, c, t := tree.Descend(key);
    if cur == NULL {
      tree.Absent(c, key);
    }
    x := cur;
  }
}
