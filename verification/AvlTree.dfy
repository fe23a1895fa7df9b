/** Linked nodes of src/storage/avl_tree.h: an arena of cells addressed by reference, and what it means for the cells
    below a pointer, or around it, to represent a shape. */
module AvlLinks {
  import opened AvlShapes

  /** A node's address; 0 is nullptr. */
  type Ref = nat
  const NULL: Ref := 0

  /** The mutable part of a node. Its key is fixed at construction and kept apart. */
  datatype Cell = Cell(height: nat, size: nat, left: Ref, right: Ref, parent: Ref)
  type Arena = map<Ref, Cell>

  function Root(t: Tree<Ref>): Ref { if t.E? then NULL else t.n }

  /** The node owning the hole of c, or `above` when c is empty. */
  function Owner(c: Ctx<Ref>, above: Ref): Ref { if c.Top? then above else c.n }

  /** The cells below Root(t), hanging below p, are exactly t: every link, height and size is right. */
  ghost predicate Linked(m: Arena, t: Tree<Ref>, p: Ref)
  {
    match t
    case E => true
    case T(l, x, r) =>
      && x != NULL && x in m && m[x] == Cell(Height(t), Size(t), Root(l), Root(r), p)
      && Linked(m, l, x) && Linked(m, r, x)
  }

  /** Like Linked, but the top node's own height and size may be stale. */
  ghost predicate Open(m: Arena, t: Tree<Ref>, p: Ref)
  {
    && t.T? && t.n != NULL && t.n in m && m[t.n] == m[t.n].(left := Root(t.l), right := Root(t.r), parent := p)
    && Linked(m, t.l, t.n) && Linked(m, t.r, t.n)
  }

  /** The parent chain c leads from `hole` up to `top`, a child of `above`. The nodes on the chain may have stale
      heights and sizes; the subtrees hanging off it are exact. */
  ghost predicate Seg(m: Arena, c: Ctx<Ref>, hole: Ref, top: Ref, above: Ref)
  {
    match c
    case Top => hole == top
    case Left(x, r, up) =>
      && x != NULL && x in m && m[x] == m[x].(left := hole, right := Root(r), parent := Owner(up, above))
      && Linked(m, r, x) && Seg(m, up, x, top, above)
    case Right(l, x, up) =>
      && x != NULL && x in m && m[x] == m[x].(left := Root(l), right := hole, parent := Owner(up, above))
      && Linked(m, l, x) && Seg(m, up, x, top, above)
  }

  /** A subtree and its surroundings share no node. */
  ghost predicate Apart(c: Ctx<Ref>, t: Tree<Ref>)
  {
    Sep(t) && CtxSep(c) && Nodes(t) !! CtxNodes(c)
  }

  /** Two arenas agree on some nodes. */
  ghost predicate Same(m: Arena, w: Arena, s: set<Ref>)
  {
    forall x :: x in s && x in m ==> x in w && w[x] == m[x]
  }

  /** Only cells in s were written. */
  ghost predicate Within(m: Arena, w: Arena, s: set<Ref>)
  {
    m.Keys == w.Keys && forall x :: x in m && x !in s ==> w[x] == m[x]
  }

  lemma {:induction false} LinkedFrame(m: Arena, w: Arena, t: Tree<Ref>, p: Ref)
    requires Linked(m, t, p) && Same(m, w, Nodes(t))
    ensures Linked(w, t, p)
  {
    if t.T? {
      LinkedFrame(m, w, t.l, t.n);
      LinkedFrame(m, w, t.r, t.n);
    }
  }

  lemma {:induction false} SegFrame(m: Arena, w: Arena, c: Ctx<Ref>, hole: Ref, top: Ref, above: Ref)
    requires Seg(m, c, hole, top, above) && Same(m, w, CtxNodes(c))
    ensures Seg(w, c, hole, top, above)
  {
    match c
    case Top =>
    case Left(x, r, up) =>
      LinkedFrame(m, w, r, x);
      SegFrame(m, w, up, x, top, above);
    case Right(l, x, up) =>
      LinkedFrame(m, w, l, x);
      SegFrame(m, w, up, x, top, above);
  }

  /** What a node's cell says about its subtree. */
  lemma LinkedCell(m: Arena, t: Tree<Ref>, p: Ref)
    requires Linked(m, t, p)
    ensures Root(t) == NULL <==> t.E?
    ensures t.T? ==> t.n in m && m[t.n] == Cell(Height(t), Size(t), Root(t.l), Root(t.r), p)
    ensures t.T? ==> Linked(m, t.l, t.n) && Linked(m, t.r, t.n)
  {
  }

  lemma {:induction false} LinkedIn(m: Arena, t: Tree<Ref>, p: Ref)
    requires Linked(m, t, p)
    ensures Nodes(t) <= m.Keys && NULL !in Nodes(t)
  {
    if t.T? {
      LinkedIn(m, t.l, t.n);
      LinkedIn(m, t.r, t.n);
    }
  }

  lemma {:induction false} SegIn(m: Arena, c: Ctx<Ref>, hole: Ref, top: Ref, above: Ref)
    requires Seg(m, c, hole, top, above)
    ensures CtxNodes(c) <= m.Keys && NULL !in CtxNodes(c)
  {
    match c
    case Top =>
    case Left(x, r, up) => LinkedIn(m, r, x); SegIn(m, up, x, top, above);
    case Right(l, x, up) => LinkedIn(m, l, x); SegIn(m, up, x, top, above);
  }

  /** Hanging a subtree below another parent. */
  function Reparent(m: Arena, x: Ref, p: Ref): Arena
    requires x == NULL || x in m
  {
    if x == NULL then m else m[x := m[x].(parent := p)]
  }

  lemma LinkedReparent(m: Arena, t: Tree<Ref>, p: Ref, q: Ref)
    requires Linked(m, t, p) && Sep(t)
    ensures Root(t) == NULL || Root(t) in m
    ensures Linked(Reparent(m, Root(t), q), t, q)
    ensures Within(m, Reparent(m, Root(t), q), Nodes(t))
  {
    if t.T? {
      var w := Reparent(m, t.n, q);
      LinkedFrame(m, w, t.l, t.n);
      LinkedFrame(m, w, t.r, t.n);
    }
  }

  /** Swapping which child sits in the slot that owner p (or the root pointer) has for u. */
  function Relink(m: Arena, p: Ref, u: Ref, v: Ref): Arena
    requires p == NULL || p in m
  {
    if p == NULL then m
    else if u == m[p].left then m[p := m[p].(left := v)]
    else m[p := m[p].(right := v)]
  }

  /** The chain above u then leads from v instead. */
  lemma SegRelink(m: Arena, c: Ctx<Ref>, u: Ref, v: Ref, top: Ref)
    requires Seg(m, c, u, top, NULL) && CtxSep(c) && u != NULL && u !in CtxNodes(c)
    ensures Owner(c, NULL) == NULL <==> c.Top?
    ensures !c.Top? ==> Owner(c, NULL) in m && Owner(c, NULL) in CtxNodes(c)
    ensures Seg(Relink(m, Owner(c, NULL), u, v), c, v, if c.Top? then v else top, NULL)
  {
    match c
    case Top =>
    case Left(x, r, up) =>
      var w := Relink(m, x, u, v);
      LinkedFrame(m, w, r, x);
      SegFrame(m, w, up, x, top, NULL);
    case Right(l, x, up) =>
      var w := Relink(m, x, u, v);
      assert u != Root(l) by { if l.T? { assert l.n in Nodes(l); } }
      LinkedFrame(m, w, l, x);
      SegFrame(m, w, up, x, top, NULL);
  }

  lemma LeafLinked(m: Arena, x: Ref, p: Ref)
    requires x != NULL && x in m && m[x] == Cell(1, 1, NULL, NULL, p)
    ensures var t := T(E, x, E);
            Linked(m, t, p) && Nodes(t) == {x} && Sep(t) && Avl(t) && Size(t) == 1 && Inorder(t) == [x]
  {
    var e: Tree<Ref> := E;
    assert Height(e) == 0 && Size(e) == 0 && Root(e) == NULL && Nodes(e) == {} && Inorder(e) == [];
  }

  /** Filling the empty slot at the end of a descent. */
  lemma SegFill(m: Arena, c: Ctx<Ref>, v: Ref, top: Ref)
    requires Seg(m, c, NULL, top, NULL) && CtxSep(c) && !c.Top?
    ensures c.n in m && c.n in CtxNodes(c)
    ensures c.Left? ==> Seg(m[c.n := m[c.n].(left := v)], c, v, top, NULL)
    ensures c.Right? ==> Seg(m[c.n := m[c.n].(right := v)], c, v, top, NULL)
  {
    var x, t := c.n, if c.Left? then c.r else c.l;
    var w := if c.Left? then m[x := m[x].(left := v)] else m[x := m[x].(right := v)];
    LinkedFrame(m, w, t, x);
    SegFrame(m, w, c.up, x, top, NULL);
  }

  /** A linked tree, seen from one of its subtrees. */
  lemma {:induction false} Focus(m: Arena, c: Ctx<Ref>, t: Tree<Ref>, above: Ref)
    requires Linked(m, Plug(c, t), above)
    ensures Linked(m, t, Owner(c, above)) && Seg(m, c, Root(t), Root(Plug(c, t)), above)
  {
    match c
    case Top =>
    case Left(x, r, up) => Focus(m, up, T(t, x, r), above);
    case Right(l, x, up) => Focus(m, up, T(l, x, t), above);
  }

  /** The topmost node a path passes. */
  function Topmost(q: Ctx<Ref>, hole: Ref): Ref
  {
    if q.Top? then hole else Topmost(q.up, q.n)
  }

  lemma {:induction false} SegTop(m: Arena, q: Ctx<Ref>, hole: Ref, top: Ref, above: Ref)
    requires Seg(m, q, hole, top, above)
    ensures top == Topmost(q, hole)
  {
    if !q.Top? {
      SegTop(m, q.up, q.n, top, above);
    }
  }

  lemma {:induction false} SegCompose(m: Arena, q: Ctx<Ref>, d: Ctx<Ref>, hole: Ref, top: Ref, above: Ref)
    ensures Seg(m, Compose(q, d), hole, top, above) <==>
            Seg(m, q, hole, Topmost(q, hole), Owner(d, above)) && Seg(m, d, Topmost(q, hole), top, above)
    ensures Owner(Compose(q, d), above) == Owner(q, Owner(d, above))
  {
    if !q.Top? {
      SegCompose(m, q.up, d, q.n, top, above);
    }
  }

  /** Moving a whole path below another parent rewrites only its topmost node. */
  lemma {:induction false} SegReparent(m: Arena, q: Ctx<Ref>, hole: Ref, above: Ref, above': Ref)
    requires !q.Top? && CtxSep(q) && Seg(m, q, hole, Topmost(q, hole), above)
    ensures var z := Topmost(q, hole);
            && z in m && z in CtxNodes(q) && Seg(m[z := m[z].(parent := above')], q, hole, z, above')
  {
    var z := Topmost(q, hole);
    if !q.up.Top? {
      SegReparent(m, q.up, q.n, above, above');
    }
    var w := m[z := m[z].(parent := above')];
    LinkedFrame(m, w, if q.Left? then q.r else q.l, q.n);
  }
}

module AvlTrees {
  import opened AvlShapes
  import opened AvlLinks

  /** A strict total order, as the Compare argument must be. */
  ghost predicate StrictOrder<K(!new)>(less: (K, K) -> bool)
  {
    && (forall a :: !less(a, a))
    && (forall a, b :: less(a, b) || a == b || less(b, a))
    && (forall a, b, c :: less(a, b) && less(b, c) ==> less(a, c))
  }

  ghost predicate Ascending<K(!new)>(less: (K, K) -> bool, keys: map<Ref, K>, s: seq<Ref>)
  {
    && (forall i :: 0 <= i < |s| ==> s[i] in keys)
    && (forall i, j :: 0 <= i < j < |s| ==> less(keys[s[i]], keys[s[j]]))
  }

  ghost predicate AllBelow<K(!new)>(less: (K, K) -> bool, keys: map<Ref, K>, s: seq<Ref>, key: K)
  {
    forall i :: 0 <= i < |s| ==> s[i] in keys && less(keys[s[i]], key)
  }

  ghost predicate AllAbove<K(!new)>(less: (K, K) -> bool, keys: map<Ref, K>, s: seq<Ref>, key: K)
  {
    forall i :: 0 <= i < |s| ==> s[i] in keys && less(key, keys[s[i]])
  }

  lemma AscendingSplit<K(!new)>(less: (K, K) -> bool, keys: map<Ref, K>, a: seq<Ref>, x: Ref, b: seq<Ref>)
    requires Ascending(less, keys, a + [x] + b)
    ensures x in keys && AllBelow(less, keys, a, keys[x]) && AllAbove(less, keys, b, keys[x])
  {
    var s := a + [x] + b;
    assert s[|a|] == x;
    forall i | 0 <= i < |a| ensures a[i] in keys && less(keys[a[i]], keys[x]) { assert s[i] == a[i]; }
    forall i | 0 <= i < |b| ensures b[i] in keys && less(keys[x], keys[b[i]]) { assert s[|a| + 1 + i] == b[i]; }
  }

  /** Everything beyond a node on either side of a subtree compares with that node the same way. */
  lemma SplitAt<K(!new)>(less: (K, K) -> bool, keys: map<Ref, K>, c: Ctx<Ref>, t: Tree<Ref>)
    requires t.T? && Ascending(less, keys, Inorder(Plug(c, t)))
    ensures t.n in keys
    ensures AllBelow(less, keys, Before(c) + Inorder(t.l), keys[t.n])
    ensures AllAbove(less, keys, Inorder(t.r) + After(c), keys[t.n])
  {
    PlugInorder(c, t);
    Around(Before(c), Inorder(t.l), t.n, Inorder(t.r), After(c));
    AscendingSplit(less, keys, Before(c) + Inorder(t.l), t.n, Inorder(t.r) + After(c));
  }

  lemma Around(a: seq<Ref>, l: seq<Ref>, x: Ref, r: seq<Ref>, b: seq<Ref>)
    ensures a + (l + [x] + r) + b == (a + l) + [x] + (r + b)
  {
  }

  lemma Closed(a: seq<Ref>, l: seq<Ref>, r: seq<Ref>, b: seq<Ref>)
    ensures a + (l + r) + b == (a + l) + (r + b)
  {
  }

  lemma DescendLeft<K(!new)>(less: (K, K) -> bool, keys: map<Ref, K>, c: Ctx<Ref>, t: Tree<Ref>, key: K)
    requires StrictOrder(less) && t.T? && Ascending(less, keys, Inorder(Plug(c, t)))
    requires t.n in keys && less(key, keys[t.n])
    ensures AllAbove(less, keys, After(Left(t.n, t.r, c)), key)
  {
    SplitAt(less, keys, c, t);
    var s := Inorder(t.r) + After(c);
    assert After(Left(t.n, t.r, c)) == [t.n] + s;
  }

  lemma DescendRight<K(!new)>(less: (K, K) -> bool, keys: map<Ref, K>, c: Ctx<Ref>, t: Tree<Ref>, key: K)
    requires StrictOrder(less) && t.T? && Ascending(less, keys, Inorder(Plug(c, t)))
    requires t.n in keys && less(keys[t.n], key)
    ensures AllBelow(less, keys, Before(Right(t.l, t.n, c)), key)
  {
    SplitAt(less, keys, c, t);
    assert Before(Right(t.l, t.n, c)) == (Before(c) + Inorder(t.l)) + [t.n];
  }

  lemma AscendingInsert<K(!new)>(less: (K, K) -> bool, keys: map<Ref, K>, a: seq<Ref>, x: Ref, b: seq<Ref>, key: K)
    requires Ascending(less, keys, a + b) && x !in keys
    requires AllBelow(less, keys, a, key) && AllAbove(less, keys, b, key)
    ensures Ascending(less, keys[x := key], a + [x] + b)
  {
    var s, w, ks := a + b, a + [x] + b, keys[x := key];
    assert forall i :: 0 <= i < |w| && i != |a| ==> w[i] == s[if i < |a| then i else i - 1] && w[i] in keys;
    forall i, j | 0 <= i < j < |w| ensures less(ks[w[i]], ks[w[j]]) {
      if i == |a| {
        assert w[j] == b[j - |a| - 1];
      } else if j == |a| {
        assert w[i] == a[i];
      } else {
        assert w[i] == s[if i < |a| then i else i - 1] && w[j] == s[if j < |a| then j else j - 1];
      }
    }
  }

  lemma AscendingRemove<K(!new)>(less: (K, K) -> bool, keys: map<Ref, K>, a: seq<Ref>, x: Ref, b: seq<Ref>)
    requires StrictOrder(less) && Ascending(less, keys, a + [x] + b)
    ensures Ascending(less, keys - {x}, a + b)
  {
    AscendingSplit(less, keys, a, x, b);
    var s, w := a + [x] + b, a + b;
    assert forall i :: 0 <= i < |a| ==> a[i] != x;
    assert forall i :: 0 <= i < |b| ==> b[i] != x;
    assert forall i :: 0 <= i < |w| ==> w[i] == s[if i < |a| then i else i + 1] && w[i] != x;
  }

  /** Five disjoint parts: what a rotation rearranges. */
  ghost predicate Parts(a: Tree<Ref>, x: Ref, b: Tree<Ref>, y: Ref, d: Tree<Ref>, c: Ctx<Ref>)
  {
    && Sep(a) && Sep(b) && Sep(d) && CtxSep(c) && x != y
    && x !in Nodes(a) && x !in Nodes(b) && x !in Nodes(d) && x !in CtxNodes(c)
    && y !in Nodes(a) && y !in Nodes(b) && y !in Nodes(d) && y !in CtxNodes(c)
    && Nodes(a) !! Nodes(b) && Nodes(a) !! Nodes(d) && Nodes(b) !! Nodes(d)
    && CtxNodes(c) !! Nodes(a) && CtxNodes(c) !! Nodes(b) && CtxNodes(c) !! Nodes(d)
  }

  lemma RotateLeftParts(t: Tree<Ref>, c: Ctx<Ref>)
    requires CanRotateLeft(t) && Apart(c, t)
    ensures Parts(t.l, t.n, t.r.l, t.r.n, t.r.r, c)
  {
    assert Sep(t.r) && Nodes(t.r) <= Nodes(t) && t.n in Nodes(t) && Nodes(t.l) <= Nodes(t);
    assert t.r.n in Nodes(t.r) && Nodes(t.r.l) <= Nodes(t.r) && Nodes(t.r.r) <= Nodes(t.r);
  }

  lemma RotateRightParts(t: Tree<Ref>, c: Ctx<Ref>)
    requires CanRotateRight(t) && Apart(c, t)
    ensures Parts(t.l.l, t.l.n, t.l.r, t.n, t.r, c)
  {
    assert Sep(t.l) && Nodes(t.l) <= Nodes(t) && t.n in Nodes(t) && Nodes(t.r) <= Nodes(t);
    assert t.l.n in Nodes(t.l) && Nodes(t.l.l) <= Nodes(t.l) && Nodes(t.l.r) <= Nodes(t.l);
  }

  /** The node to erase, its successor and the five structures around them share nothing. */
  ghost predicate Disjoint(n: Ref, y: Ref, l: Tree<Ref>, c: Ctx<Ref>, q: Ctx<Ref>, yr: Tree<Ref>)
  {
    && n != y && Sep(l) && Sep(yr) && CtxSep(c) && CtxSep(q)
    && n !in Nodes(l) && n !in Nodes(yr) && n !in CtxNodes(c) && n !in CtxNodes(q)
    && y !in Nodes(l) && y !in Nodes(yr) && y !in CtxNodes(c) && y !in CtxNodes(q)
    && Nodes(l) !! Nodes(yr) && Nodes(l) !! CtxNodes(c) && Nodes(l) !! CtxNodes(q)
    && Nodes(yr) !! CtxNodes(c) && Nodes(yr) !! CtxNodes(q) && CtxNodes(c) !! CtxNodes(q)
  }

  lemma DisjointFrom(c: Ctx<Ref>, s: Tree<Ref>, q: Ctx<Ref>, y: Ref, yr: Tree<Ref>)
    requires s.T? && s.r == Plug(q, T(E, y, yr)) && Apart(c, s)
    ensures Disjoint(s.n, y, s.l, c, q, yr)
  {
    SuccessorSep(q, y, yr);
    assert Nodes(s.l) <= Nodes(s) && Nodes(s.r) <= Nodes(s) && s.n in Nodes(s);
    assert CtxNodes(q) <= Nodes(s.r) && Nodes(yr) <= Nodes(s.r) && y in Nodes(s.r);
  }

  lemma DisjointSep(n: Ref, y: Ref, l: Tree<Ref>, c: Ctx<Ref>, q: Ctx<Ref>, yr: Tree<Ref>)
    requires Disjoint(n, y, l, c, q, yr)
    ensures var d := Compose(q, Right(l, n, c));
            CtxSep(d) && y !in CtxNodes(d) && Nodes(yr) !! CtxNodes(d)
  {
    ComposeSep(q, Right(l, n, c));
    PlugCompose(q, Right(l, n, c), E);
  }

  class AvlTree<K(!new, ==)> {
    const less: (K, K) -> bool
    var keys: map<Ref, K>
    var cells: Arena
    var root: Ref
    var count: nat
    var next: Ref
    ghost var shape: Tree<Ref>

    function HeightOf(x: Ref): nat
      requires x == NULL || x in cells
      reads this
    {
      if x == NULL then 0 else cells[x].height
    }

    function SubtreeSize(x: Ref): nat
      requires x == NULL || x in cells
      reads this
    {
      if x == NULL then 0 else cells[x].size
    }

    /** Recomputes a node's cached height and size from its children's. */
    method Update(x: Ref, ghost t: Tree<Ref>, ghost p: Ref)
      requires t.T? && t.n == x && Open(cells, t, p) && x !in Nodes(t.l) && x !in Nodes(t.r)
      modifies this`cells
      ensures Linked(cells, t, p) && Within(old(cells), cells, {x})
    {
      var l, r := cells[x].left, cells[x].right;
      cells := cells[x := cells[x].(height := 1 + Max(HeightOf(l), HeightOf(r)),
                                    size := 1 + SubtreeSize(l) + SubtreeSize(r))];
      LinkedFrame(old(cells), cells, t.l, x);
      LinkedFrame(old(cells), cells, t.r, x);
    }

    /** Puts v where u hangs from its parent or the root pointer; only that slot changes. */
    method SetSlot(u: Ref, v: Ref, ghost c: Ctx<Ref>)
      requires u in cells && cells[u].parent == Owner(c, NULL)
      requires Seg(cells, c, u, root, NULL) && CtxSep(c) && u != NULL && u !in CtxNodes(c)
      modifies this`cells, this`root
      ensures Seg(cells, c, v, root, NULL)
      ensures Within(old(cells), cells, CtxNodes(c))
    {
      SegRelink(cells, c, u, v, root);
      var p := cells[u].parent;
      if p == NULL {
        root := v;
      } else if u == cells[p].left {
        cells := cells[p := cells[p].(left := v)];
      } else {
        cells := cells[p := cells[p].(right := v)];
      }
    }

    /** Makes y's left subtree b x's right subtree. */
    method AdoptRight(x: Ref, b: Ref, ghost t: Tree<Ref>, ghost y: Ref)
      requires x in cells && x !in Nodes(t) && Sep(t) && b == Root(t) && Linked(cells, t, y)
      modifies this`cells
      ensures x in cells && cells[x] == old(cells[x]).(right := b) && Linked(cells, t, x)
      ensures Within(old(cells), cells, {x} + Nodes(t))
    {
      cells := cells[x := cells[x].(right := b)];
      LinkedFrame(old(cells), cells, t, y);
      LinkedReparent(cells, t, y, x);
      assert t.T? ==> b in Nodes(t);
      cells := Reparent(cells, b, x);
    }

    /** Lets y take x's place and x become y's left child. */
    method PromoteLeft(x: Ref, y: Ref, ghost c: Ctx<Ref>)
      requires x in cells && y in cells && x != y && x != NULL && cells[x].parent == Owner(c, NULL)
      requires Seg(cells, c, x, root, NULL) && CtxSep(c) && x !in CtxNodes(c) && y !in CtxNodes(c)
      modifies this`cells, this`root
      ensures Seg(cells, c, y, root, NULL) && Within(old(cells), cells, {x, y} + CtxNodes(c))
      ensures cells[x] == old(cells[x]).(parent := y)
      ensures cells[y] == old(cells[y]).(left := x, parent := Owner(c, NULL))
    {
      cells := cells[y := cells[y].(parent := cells[x].parent)];
      SegFrame(old(cells), cells, c, x, root, NULL);
      SetSlot(x, y, c);
      ghost var m := cells;
      cells := cells[y := cells[y].(left := x)];
      cells := cells[x := cells[x].(parent := y)];
      SegFrame(m, cells, c, y, root, NULL);
    }

    /** x's right child takes x's place. */
    method RotateLeft(x: Ref, ghost t: Tree<Ref>, ghost c: Ctx<Ref>) returns (y: Ref)
      requires CanRotateLeft(t) && t.n == x && Apart(c, t) && Open(cells, t, Owner(c, NULL))
      requires Seg(cells, c, x, root, NULL)
      modifies this`cells, this`root
      ensures y == t.r.n && Linked(cells, AvlShapes.RotateLeft(t), Owner(c, NULL)) && Seg(cells, c, y, root, NULL)
      ensures cells.Keys == old(cells.Keys)
    {
      ghost var a, b, d := t.l, t.r.l, t.r.r;
      RotateLeftParts(t, c);
      y := cells[x].right;
      ghost var m0 := cells;
      AdoptRight(x, cells[y].left, b, y);
      ghost var m1 := cells;
      SegFrame(m0, m1, c, x, root, NULL);
      LinkedFrame(m0, m1, a, x);
      LinkedFrame(m0, m1, d, y);
      PromoteLeft(x, y, c);
      LinkedFrame(m1, cells, a, x);
      LinkedFrame(m1, cells, b, x);
      LinkedFrame(m1, cells, d, y);
      ghost var m2 := cells;
      Update(x, T(a, x, b), y);
      LinkedFrame(m2, cells, d, y);
      ghost var m3 := cells;
      Update(y, AvlShapes.RotateLeft(t), Owner(c, NULL));
      SegFrame(m2, cells, c, y, root, NULL);
    }

    /** Makes y's right subtree b x's left subtree. */
    method AdoptLeft(x: Ref, b: Ref, ghost t: Tree<Ref>, ghost y: Ref)
      requires x in cells && x !in Nodes(t) && Sep(t) && b == Root(t) && Linked(cells, t, y)
      modifies this`cells
      ensures x in cells && cells[x] == old(cells[x]).(left := b) && Linked(cells, t, x)
      ensures Within(old(cells), cells, {x} + Nodes(t))
    {
      cells := cells[x := cells[x].(left := b)];
      LinkedFrame(old(cells), cells, t, y);
      LinkedReparent(cells, t, y, x);
      assert t.T? ==> b in Nodes(t);
      cells := Reparent(cells, b, x);
    }

    /** Lets y take x's place and x become y's right child. */
    method PromoteRight(x: Ref, y: Ref, ghost c: Ctx<Ref>)
      requires x in cells && y in cells && x != y && x != NULL && cells[x].parent == Owner(c, NULL)
      requires Seg(cells, c, x, root, NULL) && CtxSep(c) && x !in CtxNodes(c) && y !in CtxNodes(c)
      modifies this`cells, this`root
      ensures Seg(cells, c, y, root, NULL) && Within(old(cells), cells, {x, y} + CtxNodes(c))
      ensures cells[x] == old(cells[x]).(parent := y)
      ensures cells[y] == old(cells[y]).(right := x, parent := Owner(c, NULL))
    {
      cells := cells[y := cells[y].(parent := cells[x].parent)];
      SegFrame(old(cells), cells, c, x, root, NULL);
      SetSlot(x, y, c);
      ghost var m := cells;
      cells := cells[y := cells[y].(right := x)];
      cells := cells[x := cells[x].(parent := y)];
      SegFrame(m, cells, c, y, root, NULL);
    }

    /** x's left child takes x's place. */
    method RotateRight(x: Ref, ghost t: Tree<Ref>, ghost c: Ctx<Ref>) returns (y: Ref)
      requires CanRotateRight(t) && t.n == x && Apart(c, t) && Open(cells, t, Owner(c, NULL))
      requires Seg(cells, c, x, root, NULL)
      modifies this`cells, this`root
      ensures y == t.l.n && Linked(cells, AvlShapes.RotateRight(t), Owner(c, NULL)) && Seg(cells, c, y, root, NULL)
      ensures cells.Keys == old(cells.Keys)
    {
      ghost var a, b, d := t.l.l, t.l.r, t.r;
      RotateRightParts(t, c);
      y := cells[x].left;
      ghost var m0 := cells;
      AdoptLeft(x, cells[y].right, b, y);
      ghost var m1 := cells;
      SegFrame(m0, m1, c, x, root, NULL);
      LinkedFrame(m0, m1, a, y);
      LinkedFrame(m0, m1, d, x);
      PromoteRight(x, y, c);
      LinkedFrame(m1, cells, a, y);
      LinkedFrame(m1, cells, b, x);
      LinkedFrame(m1, cells, d, x);
      ghost var m2 := cells;
      Update(x, T(b, x, d), y);
      LinkedFrame(m2, cells, a, y);
      Update(y, AvlShapes.RotateRight(t), Owner(c, NULL));
      SegFrame(m2, cells, c, y, root, NULL);
    }

    /** Restores one node: refreshes its cached fields and, if its children differ by two, rotates once or twice. */
    method RebalanceNode(x: Ref, ghost t: Tree<Ref>, ghost c: Ctx<Ref>)
      requires t.T? && t.n == x && Open(cells, t, Owner(c, NULL)) && Apart(c, t)
      requires Seg(cells, c, x, root, NULL)
      modifies this`cells, this`root
      ensures Linked(cells, Balance(t.l, x, t.r), Owner(c, NULL))
      ensures Seg(cells, c, Root(Balance(t.l, x, t.r)), root, NULL) && cells.Keys == old(cells.Keys)
    {
      Update(x, t, Owner(c, NULL));
      SegFrame(old(cells), cells, c, x, root, NULL);
      var bf := HeightOf(cells[x].left) - HeightOf(cells[x].right);
      if bf > 1 {
        LeftHeavy(x, t, c);
      } else if bf < -1 {
        RightHeavy(x, t, c);
      }
    }

    method LeftHeavy(x: Ref, ghost t: Tree<Ref>, ghost c: Ctx<Ref>)
      requires t.T? && t.n == x && Linked(cells, t, Owner(c, NULL)) && Apart(c, t) && Height(t.l) > Height(t.r) + 1
      requires Seg(cells, c, x, root, NULL)
      modifies this`cells, this`root
      ensures Linked(cells, Balance(t.l, x, t.r), Owner(c, NULL))
      ensures Seg(cells, c, Root(Balance(t.l, x, t.r)), root, NULL) && cells.Keys == old(cells.Keys)
    {
      StraightenLeft(x, t, c);
      var _ := RotateRight(x, T(AvlShapes.StraightenLeft(t.l), x, t.r), c);
    }

    method StraightenLeft(x: Ref, ghost t: Tree<Ref>, ghost c: Ctx<Ref>)
      requires t.T? && t.n == x && Linked(cells, t, Owner(c, NULL)) && Apart(c, t) && t.l.T?
      requires Seg(cells, c, x, root, NULL)
      modifies this`cells, this`root
      ensures Apart(c, T(AvlShapes.StraightenLeft(t.l), x, t.r)) && cells.Keys == old(cells.Keys)
      ensures Open(cells, T(AvlShapes.StraightenLeft(t.l), x, t.r), Owner(c, NULL)) && Seg(cells, c, x, root, NULL)
    {
      var l := cells[x].left;
      LinkedCell(cells, t.l, x);
      LinkedCell(cells, t.l.l, l);
      LinkedCell(cells, t.l.r, l);
      if HeightOf(cells[l].left) < HeightOf(cells[l].right) {
        RotateLeftInorder(t.l);
        var _ := RotateLeft(l, t.l, Left(x, t.r, c));
      }
    }

    method RightHeavy(x: Ref, ghost t: Tree<Ref>, ghost c: Ctx<Ref>)
      requires t.T? && t.n == x && Linked(cells, t, Owner(c, NULL)) && Apart(c, t) && Height(t.r) > Height(t.l) + 1
      requires Seg(cells, c, x, root, NULL)
      modifies this`cells, this`root
      ensures Linked(cells, Balance(t.l, x, t.r), Owner(c, NULL))
      ensures Seg(cells, c, Root(Balance(t.l, x, t.r)), root, NULL) && cells.Keys == old(cells.Keys)
    {
      StraightenRight(x, t, c);
      var _ := RotateLeft(x, T(t.l, x, AvlShapes.StraightenRight(t.r)), c);
    }

    method StraightenRight(x: Ref, ghost t: Tree<Ref>, ghost c: Ctx<Ref>)
      requires t.T? && t.n == x && Linked(cells, t, Owner(c, NULL)) && Apart(c, t) && t.r.T?
      requires Seg(cells, c, x, root, NULL)
      modifies this`cells, this`root
      ensures Apart(c, T(t.l, x, AvlShapes.StraightenRight(t.r))) && cells.Keys == old(cells.Keys)
      ensures Open(cells, T(t.l, x, AvlShapes.StraightenRight(t.r)), Owner(c, NULL)) && Seg(cells, c, x, root, NULL)
    {
      var r := cells[x].right;
      LinkedCell(cells, t.r, x);
      LinkedCell(cells, t.r.l, r);
      LinkedCell(cells, t.r.r, r);
      if HeightOf(cells[r].left) > HeightOf(cells[r].right) {
        RotateRightInorder(t.r);
        var _ := RotateRight(r, t.r, Right(t.l, x, c));
      }
    }

    /** Walks from the hole's owner to the root, restoring every node on the way. */
    method RebalanceUp(start: Ref, ghost c: Ctx<Ref>, ghost t: Tree<Ref>)
      requires start == Owner(c, NULL) && Linked(cells, t, start) && Apart(c, t)
      requires Seg(cells, c, Root(t), root, NULL)
      modifies this`cells, this`root
      ensures Linked(cells, Rebalance(c, t), NULL) && root == Root(Rebalance(c, t))
      ensures cells.Keys == old(cells.Keys)
    {
      var cur := start;
      ghost var d, u := c, t;
      while cur != NULL
        invariant cur == Owner(d, NULL) && Linked(cells, u, cur) && Apart(d, u)
        invariant Seg(cells, d, Root(u), root, NULL)
        invariant Rebalance(d, u) == Rebalance(c, t) && cells.Keys == old(cells.Keys)
        decreases d
      {
        var parent := cells[cur].parent;
        ghost var v := if d.Left? then T(u, cur, d.r) else T(d.l, cur, u);
        BalanceInorder(v.l, cur, v.r);
        RebalanceNode(cur, v, d.up);
        u, d := Balance(v.l, cur, v.r), d.up;
        cur := parent;
      }
    }

    /** Links, heights, sizes and balance are exact, and every allocated node is in the tree once. */
    ghost predicate Structure()
      reads this
    {
      && keys.Keys == cells.Keys == Nodes(shape) && (forall x :: x in keys ==> x < next) && NULL < next
      && root == Root(shape) && Linked(cells, shape, NULL) && Sep(shape) && Avl(shape)
      && count == Size(shape)
    }

    ghost predicate Valid()
      reads this
    {
      StrictOrder(less) && Structure() && Ascending(less, keys, Inorder(shape))
    }

    constructor (less: (K, K) -> bool)
      requires StrictOrder(less)
      ensures Valid() && shape == E && this.less == less
    {
      this.less := less;
      keys, cells := map[], map[];
      root, count, next := NULL, 0, 1;
      shape := E;
    }

    /** Allocates a node and hangs it, as a leaf, in the empty slot the descent ended at. */
    method Attach(key: K, parent: Ref, wentLeft: bool, ghost c: Ctx<Ref>) returns (x: Ref)
      requires keys.Keys == cells.Keys && (forall x :: x in keys ==> x < next) && NULL < next
      requires CtxSep(c) && CtxNodes(c) <= cells.Keys && parent == Owner(c, NULL) && !c.Top? && wentLeft == c.Left?
      requires Seg(cells, c, NULL, root, NULL)
      modifies this
      ensures x == old(next) && next == old(next) + 1 && keys == old(keys)[x := key] && x in cells
      ensures count == old(count) + 1 && shape == old(shape) && cells.Keys == keys.Keys
      ensures Seg(cells, c, x, root, NULL) && cells[x] == Cell(1, 1, NULL, NULL, parent)
    {
      x := next;
      next := next + 1;
      cells := cells[x := Cell(1, 1, NULL, NULL, parent)];
      keys := keys[x := key];
      SegFrame(old(cells), cells, c, NULL, root, NULL);
      SegFill(cells, c, x, root);
      if wentLeft {
        cells := cells[parent := cells[parent].(left := x)];
      } else {
        cells := cells[parent := cells[parent].(right := x)];
      }
      count := count + 1;
    }

    /** Walks from the root towards key: ends at key's node, or at the empty slot where key belongs. */
    method Descend(key: K) returns (cur: Ref, parent: Ref, wentLeft: bool, ghost c: Ctx<Ref>, ghost t: Tree<Ref>)
      requires Valid()
      ensures Plug(c, t) == shape && cur == Root(t) && parent == Owner(c, NULL) && (!c.Top? ==> wentLeft == c.Left?)
      ensures cur != NULL ==> cur in keys && keys[cur] == key
      ensures AllBelow(less, keys, Before(c), key) && AllAbove(less, keys, After(c), key)
      ensures cur == NULL <==> t.E?
    {
      cur, parent, wentLeft := root, NULL, false;
      c, t := Top, shape;
      Focus(cells, c, t, NULL);
      while cur != NULL
        invariant Plug(c, t) == shape && cur == Root(t) && parent == Owner(c, NULL) && (!c.Top? ==> wentLeft == c.Left?)
        invariant Linked(cells, t, parent)
        invariant AllBelow(less, keys, Before(c), key) && AllAbove(less, keys, After(c), key)
        decreases t
      {
        SplitAt(less, keys, c, t);
        LinkedCell(cells, t, parent);
        if less(key, keys[cur]) {
          DescendLeft(less, keys, c, t, key);
          c, t := Left(cur, t.r, c), t.l;
          parent, cur, wentLeft := cur, cells[cur].left, true;
        } else if less(keys[cur], key) {
          DescendRight(less, keys, c, t, key);
          c, t := Right(t.l, cur, c), t.r;
          parent, cur, wentLeft := cur, cells[cur].right, false;
        } else {
          return;
        }
      }
      LinkedCell(cells, t, parent);
    }

    /** Adds a node for key, or returns NULL and changes nothing if key is present. Every node already in the tree
        keeps its reference and its key, and the new one takes its place in key order. */
    method Insert(key: K) returns (x: Ref)
      requires Valid()
      modifies this
      ensures Valid()
      ensures key in old(keys.Values) ==>
                x == NULL && keys == old(keys) && cells == old(cells) && root == old(root) && shape == old(shape)
      ensures key !in old(keys.Values) ==>
                x != NULL && x !in old(keys) && keys == old(keys)[x := key]
    {
      if root == NULL {
        x := InsertFirst(key);
        return;
      }
      var cur, parent, wentLeft;
      ghost var c, t;
      cur, parent, wentLeft, c, t := Descend(key);
      if cur != NULL {
        return NULL;
      }
      Absent(c, key);
      x := InsertAt(key, parent, wentLeft, c);
      AscendingInsert(less, old(keys), Before(c), x, After(c), key);
    }

    method InsertFirst(key: K) returns (x: Ref)
      requires Structure() && root == NULL
      modifies this
      ensures Structure() && x != NULL && x !in old(keys) && keys == old(keys)[x := key] && Inorder(shape) == [x]
      ensures |Inorder(shape)| == 1
    {
      LinkedCell(cells, shape, NULL);
      x := next;
      next := next + 1;
      cells := map[x := Cell(1, 1, NULL, NULL, NULL)];
      keys := map[x := key];
      root, count := x, 1;
      shape := T(E, x, E);
      LeafLinked(cells, x, NULL);
    }

    /** Hangs a new leaf in slot c and restores the balance above it. */
    method InsertAt(key: K, parent: Ref, wentLeft: bool, ghost c: Ctx<Ref>) returns (x: Ref)
      requires Structure() && Plug(c, E) == shape && root != NULL
      requires parent == Owner(c, NULL) && (!c.Top? ==> wentLeft == c.Left?)
      modifies this
      ensures Structure() && x != NULL && x !in old(keys) && keys == old(keys)[x := key]
      ensures Inorder(shape) == Before(c) + [x] + After(c) && old(Inorder(shape)) == Before(c) + After(c)
    {
      ghost var leaf := T(E, next, E);
      ghost var r := Rebalance(c, leaf);
      Focus(cells, c, E, NULL);
      InsertShape(c, next, r);
      x := Attach(key, parent, wentLeft, c);
      LeafLinked(cells, x, parent);
      Settle(parent, c, leaf);
    }

    /** Restores the balance above a hole that now holds t, and with it the whole structure. */
    method Settle(start: Ref, ghost c: Ctx<Ref>, ghost t: Tree<Ref>)
      requires start == Owner(c, NULL) && Linked(cells, t, start) && Apart(c, t)
      requires Seg(cells, c, Root(t), root, NULL)
      requires keys.Keys == cells.Keys == Nodes(Rebalance(c, t)) && (forall x :: x in keys ==> x < next) && NULL < next
      requires Avl(Rebalance(c, t)) && Sep(Rebalance(c, t)) && count == Size(Rebalance(c, t))
      modifies this`cells, this`root, this`shape
      ensures Structure() && shape == Rebalance(c, t)
    {
      RebalanceUp(start, c, t);
      shape := Rebalance(c, t);
    }

    /** The empty slot the descent ended at shows key is not stored. */
    lemma Absent(c: Ctx<Ref>, key: K)
      requires Valid() && Plug(c, E) == shape
      requires AllBelow(less, keys, Before(c), key) && AllAbove(less, keys, After(c), key)
      ensures key !in keys.Values
    {
      PlugInorder(c, E);
      forall x | x in keys ensures keys[x] != key {
        InorderNodes(shape, x);
        assert x in Before(c) || x in After(c);
      }
    }

    /** transplant: v takes u's place below u's parent. */
    method Transplant(u: Ref, v: Ref, ghost c: Ctx<Ref>, ghost t: Tree<Ref>, ghost q: Ref)
      requires u in cells && cells[u].parent == Owner(c, NULL) && u != NULL && u !in CtxNodes(c) && u !in Nodes(t)
      requires Seg(cells, c, u, root, NULL) && CtxSep(c)
      requires Linked(cells, t, q) && Sep(t) && v == Root(t) && Nodes(t) !! CtxNodes(c)
      modifies this`cells, this`root
      ensures Seg(cells, c, v, root, NULL) && Linked(cells, t, Owner(c, NULL))
      ensures Within(old(cells), cells, CtxNodes(c) + Nodes(t))
    {
      SetSlot(u, v, c);
      ghost var m := cells;
      LinkedFrame(old(cells), m, t, q);
      LinkedReparent(m, t, q, Owner(c, NULL));
      if v != NULL {
        cells := cells[v := cells[v].(parent := cells[u].parent)];
      }
      SegFrame(m, cells, c, v, root, NULL);
    }

    method Leftmost(x: Ref, ghost t: Tree<Ref>, ghost p: Ref)
      returns (y: Ref, ghost q: Ctx<Ref>, ghost yr: Tree<Ref>)
      requires t.T? && x == t.n && Linked(cells, t, p)
      ensures Plug(q, T(E, y, yr)) == t && Before(q) == []
    {
      y, q := x, Top;
      ghost var u := t;
      while cells[y].left != NULL
        invariant u.T? && y == u.n && Plug(q, u) == t && Before(q) == [] && Linked(cells, u, Owner(q, p))
        decreases u
      {
        LinkedCell(cells, u.l, y);
        q, u := Left(y, u.r, q), u.l;
        y := cells[y].left;
      }
      LinkedCell(cells, u.l, y);
      yr := u.r;
    }

    /** The successor y moves into n's place and takes over n's left subtree. */
    method Install(n: Ref, y: Ref, ghost l: Tree<Ref>, ghost c: Ctx<Ref>)
      requires n in cells && y in cells && n != y && n != NULL && l.T?
      requires cells[n].parent == Owner(c, NULL) && cells[n].left == Root(l)
      requires Seg(cells, c, n, root, NULL) && CtxSep(c) && Linked(cells, l, n) && Sep(l)
      requires n !in CtxNodes(c) && y !in CtxNodes(c) && n !in Nodes(l) && y !in Nodes(l) && Nodes(l) !! CtxNodes(c)
      modifies this`cells, this`root
      ensures Seg(cells, c, y, root, NULL) && Linked(cells, l, y)
      ensures Within(old(cells), cells, CtxNodes(c) + Nodes(l) + {y})
      ensures cells[y] == old(cells[y]).(left := Root(l), parent := Owner(c, NULL))
    {
      ghost var m0 := cells;
      SetSlot(n, y, c);
      ghost var m1 := cells;
      cells := cells[y := cells[y].(parent := cells[n].parent)];
      cells := cells[y := cells[y].(left := cells[n].left)];
      ghost var m2 := cells;
      LinkedFrame(m0, m2, l, n);
      LinkedReparent(m2, l, n, y);
      assert l.n in Nodes(l);
      cells := Reparent(cells, cells[y].left, y);
      SegFrame(m1, cells, c, y, root, NULL);
    }

    /** The successor y, deeper in n's right subtree, leaves its place to its own right subtree. */
    method Detach(n: Ref, y: Ref, ghost l: Tree<Ref>, ghost c: Ctx<Ref>, ghost q: Ctx<Ref>, ghost yr: Tree<Ref>)
      requires !q.Top? && y != NULL && y in cells && cells[y].parent == Owner(q, n) && cells[y].right == Root(yr)
      requires Disjoint(n, y, l, c, q, yr)
      requires Seg(cells, q, y, Topmost(q, y), n) && Seg(cells, Right(l, n, c), Topmost(q, y), root, NULL)
      requires Linked(cells, yr, y)
      modifies this`cells, this`root
      ensures cells.Keys == old(cells.Keys) && Linked(cells, yr, Owner(q, n))
      ensures Seg(cells, q, Root(yr), Topmost(q, y), n) && Seg(cells, Right(l, n, c), Topmost(q, y), root, NULL)
    {
      ghost var d := Right(l, n, c);
      DisjointSep(n, y, l, c, q, yr);
      SegCompose(cells, q, d, y, root, NULL);
      Transplant(y, cells[y].right, Compose(q, d), yr, y);
      SegCompose(cells, q, d, Root(yr), root, NULL);
    }

    /** y takes over the rest of n's right subtree. */
    method TakeOver(n: Ref, y: Ref, ghost l: Tree<Ref>, ghost c: Ctx<Ref>, ghost q: Ctx<Ref>, ghost yr: Tree<Ref>)
      requires !q.Top? && y in cells && Disjoint(n, y, l, c, q, yr) && Linked(cells, yr, Owner(q, n))
      requires Seg(cells, q, Root(yr), Topmost(q, y), n) && Seg(cells, Right(l, n, c), Topmost(q, y), root, NULL)
      modifies this`cells
      ensures cells.Keys == old(cells.Keys) && n in cells && n != NULL && y in cells
      ensures cells[n].left == Root(l) && cells[n].parent == Owner(c, NULL) && cells[y].right == Topmost(q, y)
      ensures Seg(cells, q, Root(yr), Topmost(q, y), y) && Linked(cells, yr, Owner(q, n))
      ensures Seg(cells, c, n, root, NULL) && Linked(cells, l, n)
    {
      ghost var m1 := cells;
      var z := cells[n].right;
      cells := cells[y := cells[y].(right := z)];
      SegFrame(m1, cells, q, Root(yr), z, n);
      MovePath(z, y, q, Root(yr), n);
      LinkedFrame(m1, cells, yr, Owner(q, n));
      LinkedFrame(m1, cells, l, n);
      SegFrame(m1, cells, c, n, root, NULL);
    }

    /** Hangs a whole path below another parent. */
    method MovePath(z: Ref, y: Ref, ghost q: Ctx<Ref>, ghost hole: Ref, ghost above: Ref)
      requires !q.Top? && CtxSep(q) && Seg(cells, q, hole, z, above) && z == Topmost(q, hole)
      modifies this`cells
      ensures Seg(cells, q, hole, z, y) && Within(old(cells), cells, CtxNodes(q))
    {
      SegReparent(cells, q, hole, above, y);
      cells := cells[z := cells[z].(parent := y)];
    }

    /** erase with two children, the successor being deeper than the right child. */
    method SpliceFar(n: Ref, y: Ref, ghost l: Tree<Ref>, ghost c: Ctx<Ref>, ghost q: Ctx<Ref>, ghost yr: Tree<Ref>)
      requires !q.Top? && y != NULL && y in cells && cells[y].parent == Owner(q, n) && cells[y].right == Root(yr)
      requires Disjoint(n, y, l, c, q, yr) && l.T?
      requires Seg(cells, q, y, Topmost(q, y), n) && Seg(cells, Right(l, n, c), Topmost(q, y), root, NULL)
      requires Linked(cells, yr, y)
      modifies this`cells, this`root
      ensures cells.Keys == old(cells.Keys) && Linked(cells, yr, Owner(q, y))
      ensures Seg(cells, Compose(q, Right(l, y, c)), Root(yr), root, NULL)
    {
      Detach(n, y, l, c, q, yr);
      TakeOver(n, y, l, c, q, yr);
      ghost var m := cells;
      Install(n, y, l, c);
      LinkedFrame(m, cells, yr, Owner(q, n));
      SegFrame(m, cells, q, Root(yr), Topmost(q, y), y);
      SegCompose(cells, q, Right(l, y, c), Root(yr), root, NULL);
    }

    /** erase with two children, the successor being the right child itself. */
    method SpliceNear(n: Ref, y: Ref, ghost l: Tree<Ref>, ghost c: Ctx<Ref>, ghost yr: Tree<Ref>)
      requires y != NULL && y in cells && cells[y].right == Root(yr) && Disjoint(n, y, l, c, Top, yr) && l.T?
      requires Seg(cells, Right(l, n, c), y, root, NULL) && Linked(cells, yr, y)
      modifies this`cells, this`root
      ensures cells.Keys == old(cells.Keys) && Linked(cells, yr, y)
      ensures Seg(cells, Right(l, y, c), Root(yr), root, NULL)
    {
      ghost var m := cells;
      Install(n, y, l, c);
      LinkedFrame(m, cells, yr, y);
    }

    /** Unlinks a node with two children: its successor is relinked into its place, not copied. */
    method UnlinkTwo(n: Ref, ghost c: Ctx<Ref>, ghost s: Tree<Ref>)
      returns (start: Ref, ghost d: Ctx<Ref>, ghost t: Tree<Ref>)
      requires s.T? && s.n == n && s.l.T? && s.r.T? && Sep(Plug(c, s)) && Avl(Plug(c, s)) && Apart(c, s)
      requires Linked(cells, s, Owner(c, NULL)) && Seg(cells, c, n, root, NULL)
      modifies this`cells, this`root
      ensures Hole(Plug(c, s), n, d, t)
      ensures Before(d) + Inorder(t) + After(d) == Before(c) + (Inorder(s.l) + Inorder(s.r)) + After(c)
      ensures start == Owner(d, NULL) && Linked(cells, t, start) && Seg(cells, d, Root(t), root, NULL)
      ensures cells.Keys == old(cells.Keys)
    {
      var y;
      ghost var q;
      y, q, t := Leftmost(cells[n].right, s.r, n);
      d := Compose(q, Right(s.l, y, c));
      SpliceShape(c, s, q, y, t, d);
      start := Splice(n, y, c, s, q, t);
    }

    /** Relinks the successor y, found at the end of path q in n's right subtree, into n's place. */
    method Splice(n: Ref, y: Ref, ghost c: Ctx<Ref>, ghost s: Tree<Ref>, ghost q: Ctx<Ref>, ghost t: Tree<Ref>)
      returns (start: Ref)
      requires s.T? && s.n == n && s.l.T? && s.r == Plug(q, T(E, y, t)) && Apart(c, s)
      requires Linked(cells, s, Owner(c, NULL)) && Seg(cells, c, n, root, NULL)
      modifies this`cells, this`root
      ensures start == Owner(Compose(q, Right(s.l, y, c)), NULL) && Linked(cells, t, start)
      ensures Seg(cells, Compose(q, Right(s.l, y, c)), Root(t), root, NULL) && cells.Keys == old(cells.Keys)
    {
      DisjointFrom(c, s, q, y, t);
      Focus(cells, q, T(E, y, t), n);
      SegTop(cells, q, y, cells[n].right, n);
      SegCompose(cells, q, Right(s.l, y, c), Root(t), root, NULL);
      if cells[y].parent == n {
        start := y;
        SpliceNear(n, y, s.l, c, t);
      } else {
        start := cells[y].parent;
        SpliceFar(n, y, s.l, c, q, t);
      }
    }

    /** Unlinks a node with at most one child, whose subtree t takes its place. */
    method UnlinkOne(n: Ref, v: Ref, ghost c: Ctx<Ref>, ghost s: Tree<Ref>, ghost t: Tree<Ref>) returns (start: Ref)
      requires s.T? && s.n == n && Sep(Plug(c, s)) && Avl(Plug(c, s)) && Apart(c, s) && v == Root(t)
      requires (s.l.E? && t == s.r) || (s.r.E? && t == s.l)
      requires Linked(cells, s, Owner(c, NULL)) && Seg(cells, c, n, root, NULL)
      modifies this`cells, this`root
      ensures Hole(Plug(c, s), n, c, t) && Inorder(t) == Inorder(s.l) + Inorder(s.r)
      ensures start == Owner(c, NULL) && Linked(cells, t, start) && Seg(cells, c, Root(t), root, NULL)
      ensures cells.Keys == old(cells.Keys)
    {
      DropShape(c, s, t);
      start := cells[n].parent;
      Transplant(n, v, c, t, n);
    }

    /** Takes n out of the links. */
    method Unlink(n: Ref, ghost c: Ctx<Ref>, ghost s: Tree<Ref>) returns (start: Ref, ghost d: Ctx<Ref>, ghost t: Tree<Ref>)
      requires s.T? && s.n == n && Sep(Plug(c, s)) && Avl(Plug(c, s)) && Apart(c, s)
      requires Linked(cells, s, Owner(c, NULL)) && Seg(cells, c, n, root, NULL)
      modifies this`cells, this`root
      ensures Hole(Plug(c, s), n, d, t)
      ensures Before(d) + Inorder(t) + After(d) == Before(c) + (Inorder(s.l) + Inorder(s.r)) + After(c)
      ensures start == Owner(d, NULL) && Linked(cells, t, start) && Seg(cells, d, Root(t), root, NULL)
      ensures cells.Keys == old(cells.Keys)
    {
      LinkedCell(cells, s.l, n);
      LinkedCell(cells, s.r, n);
      if cells[n].left == NULL {
        d, t := c, s.r;
        start := UnlinkOne(n, cells[n].right, c, s, t);
      } else if cells[n].right == NULL {
        d, t := c, s.l;
        start := UnlinkOne(n, cells[n].left, c, s, t);
      } else {
        start, d, t := UnlinkTwo(n, c, s);
      }
    }

    /** Frees the unlinked node and restores the balance. */
    method Release(n: Ref, start: Ref, ghost d: Ctx<Ref>, ghost t: Tree<Ref>)
      requires keys.Keys == cells.Keys == Nodes(shape) && (forall x :: x in keys ==> x < next) && NULL < next
      requires n in Nodes(shape) && count == Size(shape) && Hole(shape, n, d, t)
      requires |Before(d) + Inorder(t) + After(d)| + 1 == Size(shape)
      requires start == Owner(d, NULL) && Linked(cells, t, start) && Seg(cells, d, Root(t), root, NULL)
      modifies this
      ensures Structure() && keys == old(keys) - {n} && Inorder(shape) == Before(d) + Inorder(t) + After(d)
    {
      HoleSettled(shape, n, d, t);
      hide Inorder, Before, After, Avl, Height, Rebalance, CtxAvl;
      ghost var m := cells;
      keys, cells := keys - {n}, cells - {n};
      count := count - 1;
      LinkedFrame(m, cells, t, start);
      SegFrame(m, cells, d, Root(t), root, NULL);
      Settle(start, d, t);
    }

    /** Removes node n. Every other node keeps its reference and its key. */
    method Erase(n: Ref)
      requires Valid() && n in keys
      modifies this
      ensures Valid() && keys == old(keys) - {n}
    {
      ghost var a, b;
      a, b := Remove(n);
      AscendingRemove(less, old(keys), a, n, b);
    }

    method Remove(n: Ref) returns (ghost a: seq<Ref>, ghost b: seq<Ref>)
      requires Structure() && n in keys
      modifies this
      ensures Structure() && keys == old(keys) - {n}
      ensures old(Inorder(shape)) == a + [n] + b && Inorder(shape) == a + b
    {
      ghost var c, s := FindNode(Top, shape, n);
      Focus(cells, c, s, NULL);
      PlugSep(c, s);
      var start;
      ghost var d, t;
      start, d, t := Unlink(n, c, s);
      a, b := EraseOrder(c, s, d, t);
      Release(n, start, d, t);
    }

    static lemma EraseOrder(c: Ctx<Ref>, s: Tree<Ref>, d: Ctx<Ref>, t: Tree<Ref>) returns (a: seq<Ref>, b: seq<Ref>)
      requires s.T?
      requires Before(d) + Inorder(t) + After(d) == Before(c) + (Inorder(s.l) + Inorder(s.r)) + After(c)
      ensures Inorder(Plug(c, s)) == a + [s.n] + b && Before(d) + Inorder(t) + After(d) == a + b
      ensures Size(Plug(c, s)) == |a + b| + 1
    {
      a, b := Before(c) + Inorder(s.l), Inorder(s.r) + After(c);
      PlugInorder(c, s);
      Around(Before(c), Inorder(s.l), s.n, Inorder(s.r), After(c));
      Closed(Before(c), Inorder(s.l), Inorder(s.r), After(c));
      InorderSize(Plug(c, s));
    }
  }
}
