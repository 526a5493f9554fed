/** The splay tree itself (bounds-splay-tree.c): linked nodes updated in place, specified by the
    values of SplayShape. */
module SplayTree {
  import opened SplayShape
  import opened Powers

  const UINT_MAX: nat := 0xFFFF_FFFF
  const MAX_DEPTH: nat := 2500

  /** What a `boundssplay_tree_node *` can point at: the root field or a child field of a node. */
  datatype Link = NoLink | RootLink | LeftOf(node: Node) | RightOf(node: Node)

  function LinkTo(c: Context): Link {
    match c
    case Top => RootLink
    case InLeft(_, x, _) => LeftOf(x)
    case InRight(_, _, x) => RightOf(x)
  }

  function Owner(link: Link): set<Node> {
    if link.LeftOf? || link.RightOf? then {link.node} else {}
  }

  // ----- Which nodes a tree is made of ------------------------------------------------------------

  function NodeSet(t: Tree): set<Node> {
    match t
    case Nil => {}
    case Bin(l, x, r) => NodeSet(l) + {x} + NodeSet(r)
  }

  function ContextSet(c: Context): set<Node> {
    match c
    case Top => {}
    case InLeft(up, x, r) => ContextSet(up) + {x} + NodeSet(r)
    case InRight(up, l, x) => ContextSet(up) + {x} + NodeSet(l)
  }

  /** No node occurs twice. */
  ghost predicate Apart(t: Tree) {
    match t
    case Nil => true
    case Bin(l, x, r) => Apart(l) && Apart(r) && x !in NodeSet(l) && x !in NodeSet(r) && NodeSet(l) !! NodeSet(r)
  }

  ghost predicate ApartContext(c: Context) {
    match c
    case Top => true
    case InLeft(up, x, r) =>
      ApartContext(up) && Apart(r) && x !in ContextSet(up) && x !in NodeSet(r) && NodeSet(r) !! ContextSet(up)
    case InRight(up, l, x) =>
      ApartContext(up) && Apart(l) && x !in ContextSet(up) && x !in NodeSet(l) && NodeSet(l) !! ContextSet(up)
  }

  ghost predicate ApartFocus(f: Focus) {
    ApartContext(f.context) && Apart(f.tree) && NodeSet(f.tree) !! ContextSet(f.context)
  }

  function FocusSet(f: Focus): set<Node> {
    ContextSet(f.context) + NodeSet(f.tree)
  }

  lemma {:induction false} NodeSetIsInOrder(t: Tree)
    ensures forall x :: x in NodeSet(t) <==> x in InOrder(t)
  {
    match t
    case Nil =>
    case Bin(l, x, r) =>
      NodeSetIsInOrder(l);
      NodeSetIsInOrder(r);
  }

  lemma {:induction false} NodeSetPlug(c: Context, t: Tree)
    ensures NodeSet(Plug(c, t)) == ContextSet(c) + NodeSet(t)
  {
    match c
    case Top =>
    case InLeft(up, x, r) => NodeSetPlug(up, Bin(t, x, r));
    case InRight(up, l, x) => NodeSetPlug(up, Bin(l, x, t));
  }

  lemma {:induction false} SortedIsApart(t: Tree)
    requires Sorted(InOrder(t))
    ensures Apart(t)
  {
    if t.Bin? {
      var Bin(l, x, r) := t;
      SortedPieces(InOrder(l), x, InOrder(r));
      SortedIsApart(l);
      SortedIsApart(r);
      KeysApart(l, x, r);
    }
  }

  lemma KeysApart(l: Tree, x: Node, r: Tree)
    requires forall y :: y in InOrder(l) ==> y.key < x.key
    requires forall y :: y in InOrder(r) ==> x.key < y.key
    ensures x !in NodeSet(l) && x !in NodeSet(r) && NodeSet(l) !! NodeSet(r)
  {
    NodeSetIsInOrder(l);
    NodeSetIsInOrder(r);
  }

  lemma SortedPieces(a: seq<Node>, x: Node, b: seq<Node>)
    requires Sorted(a + [x] + b)
    ensures Sorted(a) && Sorted(b)
    ensures forall y :: y in a ==> y.key < x.key
    ensures forall y :: y in b ==> x.key < y.key
  {
    SortedParts(a + [x], b);
    SortedParts(a, [x]);
    assert x in [x];
    assert x in a + [x];
  }

  /** The subtree a step of the path left behind. */
  function Sibling(c: Context): Tree
    requires !c.Top?
  {
    if c.InLeft? then c.right else c.left
  }

  /** Everything a rotation touches is disjoint from the subtrees it moves. */
  lemma RotationApart(f: Focus)
    requires f.tree.Bin? && !f.context.Top? && ApartFocus(f)
    ensures var Bin(a, n, b) := f.tree; var p, d, up := f.context.node, Sibling(f.context), f.context.up;
            && n != p && n in FocusSet(f) && p in FocusSet(f) && ContextSet(up) <= FocusSet(f)
            && OffPath(a, {n, p}, up) && OffPath(b, {n, p}, up) && OffPath(d, {n, p}, up)
            && n !in ContextSet(up) && p !in ContextSet(up)
  {
  }

  /** None of the nodes ns nor of the nodes on the path is in t. */
  ghost predicate OffPath(t: Tree, ns: set<Node>, up: Context) {
    ns !! NodeSet(t) && NodeSet(t) !! ContextSet(up)
  }

  lemma DoubleRotationApart(f: Focus)
    requires f.tree.Bin? && !f.context.Top? && !f.context.up.Top? && ApartFocus(f)
    ensures var Bin(a, n, b) := f.tree; var p, d, up := f.context.node, Sibling(f.context), f.context.up;
            var g, e := up.node, Sibling(up);
            && n != p && n != g && p != g
            && {n, p, g} + ContextSet(up.up) <= FocusSet(f)
            && OffPath(a, {n, p, g}, up.up) && OffPath(b, {n, p, g}, up.up)
            && OffPath(d, {n, p, g}, up.up) && OffPath(e, {n, p, g}, up.up)
            && n !in ContextSet(up.up) && p !in ContextSet(up.up) && g !in ContextSet(up.up)
  {
    var Bin(a, n, b) := f.tree;
    var p, d, up := f.context.node, Sibling(f.context), f.context.up;
    var g, e := up.node, Sibling(up);
    RotationApart(f);
    assert ContextSet(up) == ContextSet(up.up) + {g} + NodeSet(e);
    assert ApartContext(up);
    assert OffPath(e, {n, p, g}, up.up);
  }

  lemma OwnerInContext(c: Context)
    ensures Owner(LinkTo(c)) <= ContextSet(c)
  {
  }

  lemma {:induction false} ApartPlug(c: Context, t: Tree)
    requires Apart(Plug(c, t))
    ensures ApartFocus(Focus(c, t))
  {
    match c
    case Top =>
    case InLeft(up, x, r) => ApartPlug(up, Bin(t, x, r));
    case InRight(up, l, x) => ApartPlug(up, Bin(l, x, t));
  }

  // ----- How nodes are linked ---------------------------------------------------------------------

  datatype Children = Children(left: Node?, right: Node?)

  /** A snapshot of the child fields of some nodes. */
  type Links = map<Node, Children>

  ghost function LinksOf(s: set<Node>): Links
    reads s
  {
    map x | x in s :: Children(x.left, x.right)
  }

  /** n is the root of a linked copy of t. */
  ghost predicate Linked(m: Links, n: Node?, t: Tree) {
    match t
    case Nil => n == null
    case Bin(l, x, r) => n == x && x in m && Linked(m, m[x].left, l) && Linked(m, m[x].right, r)
  }

  /** Following the links of c from root leads to a link that holds hole. */
  ghost predicate LinkedContext(m: Links, c: Context, hole: Node?, root: Node?) {
    match c
    case Top => root == hole
    case InLeft(up, x, r) =>
      x in m && m[x].left == hole && Linked(m, m[x].right, r) && LinkedContext(m, up, x, root)
    case InRight(up, l, x) =>
      x in m && m[x].right == hole && Linked(m, m[x].left, l) && LinkedContext(m, up, x, root)
  }

  ghost predicate Agree(m: Links, m': Links, s: set<Node>) {
    forall x :: x in s && x in m ==> x in m' && m'[x] == m[x]
  }

  /** A linked tree stays linked while none of its nodes is touched. */
  lemma {:induction false} LinkedFrame(m: Links, m': Links, n: Node?, t: Tree)
    requires Linked(m, n, t) && Agree(m, m', NodeSet(t))
    ensures Linked(m', n, t)
  {
    match t
    case Nil =>
    case Bin(l, x, r) =>
      LinkedFrame(m, m', m[x].left, l);
      LinkedFrame(m, m', m[x].right, r);
  }

  lemma {:induction false} LinkedContextFrame(m: Links, m': Links, c: Context, hole: Node?, root: Node?)
    requires LinkedContext(m, c, hole, root) && Agree(m, m', ContextSet(c))
    ensures LinkedContext(m', c, hole, root)
  {
    if !c.Top? {
      LinkedFrame(m, m', if c.InLeft? then m[c.node].right else m[c.node].left, Sibling(c));
      LinkedContextFrame(m, m', c.up, c.node, root);
    }
  }

  /** The snapshot after storing v through the link of c; the root field is not part of it. */
  function Stored(m: Links, c: Context, v: Node?): Links
    requires !c.Top? ==> c.node in m
  {
    match c
    case Top => m
    case InLeft(_, x, _) => m[x := m[x].(left := v)]
    case InRight(_, _, x) => m[x := m[x].(right := v)]
  }

  /** Storing through a link replaces what hangs there and nothing else. */
  lemma StoredFillsHole(m: Links, c: Context, hole: Node?, root: Node?, v: Node?)
    requires LinkedContext(m, c, hole, root) && ApartContext(c)
    ensures LinkedContext(Stored(m, c, v), c, v, if c.Top? then v else root)
  {
    if !c.Top? {
      var m' := Stored(m, c, v);
      LinkedFrame(m, m', if c.InLeft? then m[c.node].right else m[c.node].left, Sibling(c));
      LinkedContextFrame(m, m', c.up, c.node, root);
    }
  }

  lemma {:induction false} LinkedPlug(m: Links, c: Context, n: Node?, t: Tree, root: Node?)
    requires LinkedContext(m, c, n, root) && Linked(m, n, t)
    ensures Linked(m, root, Plug(c, t))
  {
    match c
    case Top =>
    case InLeft(up, x, r) => LinkedPlug(m, up, x, Bin(t, x, r), root);
    case InRight(up, l, x) => LinkedPlug(m, up, x, Bin(l, x, t), root);
  }

  /** A child pointer never points back at the root of its own tree. */
  lemma {:induction false} ChildIsNotRoot(m: Links, n: Node?, t: Tree, x: Node)
    requires Linked(m, n, t) && Apart(t) && x in NodeSet(t)
    ensures x in m
    ensures m[x].left == null || m[x].left in NodeSet(t)
    ensures m[x].right == null || m[x].right in NodeSet(t)
    ensures m[x].left != t.node && m[x].right != t.node
  {
    var Bin(l, y, r) := t;
    if x == y {
      assert l.Bin? ==> l.node in NodeSet(l);
      assert r.Bin? ==> r.node in NodeSet(r);
    } else if x in NodeSet(l) {
      ChildIsNotRoot(m, m[y].left, l, x);
    } else {
      ChildIsNotRoot(m, m[y].right, r, x);
    }
  }

  /** One step up the path. */
  function Up(f: Focus): Focus
    requires !f.context.Top?
  {
    match f.context
    case InLeft(up, x, r) => Focus(up, Bin(f.tree, x, r))
    case InRight(up, l, x) => Focus(up, Bin(l, x, f.tree))
  }

  /** A node is its parent's left child exactly when the path says so. */
  lemma SideOfChild(m: Links, f: Focus, root: Node?)
    requires f.tree.Bin? && !f.context.Top? && ApartFocus(f)
    requires LinkedContext(m, f.context, f.tree.node, root) && Linked(m, f.tree.node, f.tree)
    ensures f.context.node in m && (m[f.context.node].left == f.tree.node <==> f.context.InLeft?)
    ensures m[f.context.node].right == f.tree.node <==> f.context.InRight?
    ensures ApartFocus(Up(f)) && Linked(m, f.context.node, Up(f).tree)
    ensures LinkedContext(m, f.context.up, f.context.node, root)
  {
    assert f.tree.node in NodeSet(f.tree);
    assert Sibling(f.context).Bin? ==> Sibling(f.context).node in ContextSet(f.context) by {
      assert Sibling(f.context).Bin? ==> Sibling(f.context).node in NodeSet(Sibling(f.context));
    }
  }

  // ----- What a rotation does to the links --------------------------------------------------------

  /** The child fields of n and its parent after one rotation. */
  function ZigLinks(m: Links, f: Focus): Links
    requires f.tree.Bin? && !f.context.Top? && f.tree.node in m && f.context.node in m
  {
    var n, p := f.tree.node, f.context.node;
    if f.context.InLeft? then m[p := Children(m[n].right, m[p].right)][n := Children(m[n].left, p)]
    else m[p := Children(m[p].left, m[n].left)][n := Children(p, m[n].right)]
  }

  lemma ZigLinked(m: Links, f: Focus, root: Node?)
    requires f.tree.Bin? && !f.context.Top? && f.context.up.Top? && ApartFocus(f)
    requires LinkedContext(m, f.context, f.tree.node, root) && Linked(m, f.tree.node, f.tree)
    ensures f.context.node in m && root == f.context.node
    ensures Linked(ZigLinks(m, f), f.tree.node, Zig(f).tree)
  {
    var m' := ZigLinks(m, f);
    var Bin(a, n, b) := f.tree;
    var p := f.context.node;
    RotationApart(f);
    LinkedFrame(m, m', m[n].left, a);
    LinkedFrame(m, m', m[n].right, b);
    LinkedFrame(m, m', if f.context.InLeft? then m[p].right else m[p].left, Sibling(f.context));
  }

  /** The child fields of n, its parent and its grandparent after a double rotation. */
  function ZigZigLinks(m: Links, f: Focus): Links
    requires f.tree.Bin? && !f.context.Top? && !f.context.up.Top?
    requires f.tree.node in m && f.context.node in m && f.context.up.node in m
  {
    var n, p, g := f.tree.node, f.context.node, f.context.up.node;
    match (f.context.InLeft?, f.context.up.InLeft?)
    case (true, true) =>
      m[g := Children(m[p].right, m[g].right)][p := Children(m[n].right, g)][n := Children(m[n].left, p)]
    case (false, false) =>
      m[g := Children(m[g].left, m[p].left)][p := Children(g, m[n].left)][n := Children(p, m[n].right)]
    case (true, false) =>
      m[g := Children(m[g].left, m[n].left)][p := Children(m[n].right, m[p].right)][n := Children(g, p)]
    case (false, true) =>
      m[g := Children(m[n].right, m[g].right)][p := Children(m[p].left, m[n].left)][n := Children(p, g)]
  }

  lemma PathLinked(m: Links, c: Context, hole: Node?, root: Node?)
    requires !c.Top? && LinkedContext(m, c, hole, root)
    ensures c.node in m && (if c.InLeft? then m[c.node].left else m[c.node].right) == hole
    ensures Linked(m, if c.InLeft? then m[c.node].right else m[c.node].left, Sibling(c))
    ensures LinkedContext(m, c.up, c.node, root)
    ensures c.up.Top? ==> root == c.node
    ensures !c.up.Top? ==> c.up.node in m && (if c.up.InLeft? then m[c.up.node].left else m[c.up.node].right) == c.node
  {
    assert LinkedContext(m, c.up, c.node, root);
  }

  lemma ZigZigLinked(m: Links, f: Focus, root: Node?)
    requires f.tree.Bin? && !f.context.Top? && !f.context.up.Top? && ApartFocus(f)
    requires LinkedContext(m, f.context, f.tree.node, root) && Linked(m, f.tree.node, f.tree)
    ensures f.context.node in m && f.context.up.node in m
    ensures Linked(ZigZigLinks(m, f), f.tree.node, ZigZig(f).tree)
    ensures LinkedContext(ZigZigLinks(m, f), f.context.up.up, f.context.up.node, root)
  {
    PathLinked(m, f.context, f.tree.node, root);
    PathLinked(m, f.context.up, f.context.node, root);
    DoubleRotationApart(f);
    ZigZigKeepsParts(m, f, root);
    ZigZigAssembles(m, ZigZigLinks(m, f), f);
  }

  /** The four subtrees that hang below the three nodes. */
  ghost predicate PartsLinked(m: Links, m': Links, f: Focus)
    requires f.tree.Bin? && !f.context.Top? && !f.context.up.Top?
    requires f.tree.node in m && f.context.node in m && f.context.up.node in m
  {
    var Bin(a, n, b) := f.tree;
    var p, g := f.context.node, f.context.up.node;
    && Linked(m', m[n].left, a)
    && Linked(m', m[n].right, b)
    && Linked(m', if f.context.InLeft? then m[p].right else m[p].left, Sibling(f.context))
    && Linked(m', if f.context.up.InLeft? then m[g].right else m[g].left, Sibling(f.context.up))
  }

  lemma ZigZigKeepsParts(m: Links, f: Focus, root: Node?)
    requires f.tree.Bin? && !f.context.Top? && !f.context.up.Top? && ApartFocus(f)
    requires f.context.node in m && f.context.up.node in m
    requires LinkedContext(m, f.context, f.tree.node, root) && Linked(m, f.tree.node, f.tree)
    ensures PartsLinked(m, ZigZigLinks(m, f), f)
    ensures LinkedContext(ZigZigLinks(m, f), f.context.up.up, f.context.up.node, root)
  {
    var Bin(a, n, b) := f.tree;
    var p, g := f.context.node, f.context.up.node;
    PathLinked(m, f.context, n, root);
    PathLinked(m, f.context.up, p, root);
    DoubleRotationApart(f);
    var m' := ZigZigLinks(m, f);
    assert forall x :: x in m && x !in {n, p, g} ==> x in m' && m'[x] == m[x];
    hide NodeSet, ContextSet, ApartFocus, Apart, ApartContext, LinkedContext, Linked, ZigZigLinks;
    LinkedFrame(m, m', m[n].left, a);
    LinkedFrame(m, m', m[n].right, b);
    LinkedFrame(m, m', if f.context.InLeft? then m[p].right else m[p].left, Sibling(f.context));
    LinkedFrame(m, m', if f.context.up.InLeft? then m[g].right else m[g].left, Sibling(f.context.up));
    LinkedContextFrame(m, m', f.context.up.up, g, root);
  }

  lemma ZigZigAssembles(m: Links, m': Links, f: Focus)
    requires f.tree.Bin? && !f.context.Top? && !f.context.up.Top?
    requires f.tree.node in m && f.context.node in m && f.context.up.node in m && m' == ZigZigLinks(m, f)
    requires f.tree.node != f.context.node && f.tree.node != f.context.up.node && f.context.node != f.context.up.node
    requires PartsLinked(m, m', f)
    ensures Linked(m', f.tree.node, ZigZig(f).tree)
  {
    var Bin(a, n, b) := f.tree;
    var p, g := f.context.node, f.context.up.node;
    var d, e := Sibling(f.context), Sibling(f.context.up);
    match (f.context.InLeft?, f.context.up.InLeft?)
    case (true, true) =>
      assert Linked(m', g, Bin(d, g, e));
      assert Linked(m', p, Bin(b, p, Bin(d, g, e)));
    case (false, false) =>
      assert Linked(m', g, Bin(e, g, d));
      assert Linked(m', p, Bin(Bin(e, g, d), p, a));
    case (true, false) =>
      assert Linked(m', g, Bin(e, g, a));
      assert Linked(m', p, Bin(b, p, d));
    case (false, true) =>
      assert Linked(m', g, Bin(b, g, e));
      assert Linked(m', p, Bin(d, p, a));
  }

  /** The whole double rotation, with the last store into the link above the grandparent. */
  lemma ZigZigStored(m: Links, f: Focus, root: Node?)
    requires f.tree.Bin? && !f.context.Top? && !f.context.up.Top? && ApartFocus(f)
    requires LinkedContext(m, f.context, f.tree.node, root) && Linked(m, f.tree.node, f.tree)
    ensures f.context.node in m && f.context.up.node in m
    ensures var r, n := ZigZig(f), f.tree.node;
            && (!r.context.Top? ==> r.context.node in m)
            && var m' := Stored(ZigZigLinks(m, f), r.context, n);
            LinkedContext(m', r.context, n, if r.context.Top? then n else root) && Linked(m', n, r.tree)
  {
    ZigZigLinked(m, f, root);
    var r, n, m1 := ZigZig(f), f.tree.node, ZigZigLinks(m, f);
    ZigZigSet(f);
    hide Linked, LinkedContext, NodeSet, Apart;
    StoredFillsHole(m1, r.context, f.context.up.node, root, n);
    OwnerInContext(r.context);
    LinkedFrame(m1, Stored(m1, r.context, n), n, r.tree);
  }

  lemma ZigZigSet(f: Focus)
    requires f.tree.Bin? && !f.context.Top? && !f.context.up.Top? && ApartFocus(f)
    ensures ApartContext(ZigZig(f).context)
    ensures NodeSet(ZigZig(f).tree) !! ContextSet(ZigZig(f).context)
  {
    DoubleRotationApart(f);
    assert ApartContext(f.context.up);
    var Bin(a, n, b) := f.tree;
    var p, g, d, e := f.context.node, f.context.up.node, Sibling(f.context), Sibling(f.context.up);
    var sides := NodeSet(a) + NodeSet(b) + NodeSet(d) + NodeSet(e) + {n, p, g};
    match (f.context.InLeft?, f.context.up.InLeft?)
    case (true, true) =>
      assert NodeSet(Bin(b, p, Bin(d, g, e))) == NodeSet(b) + {p} + (NodeSet(d) + {g} + NodeSet(e));
      assert NodeSet(ZigZig(f).tree) <= sides;
    case (false, false) =>
      assert NodeSet(Bin(Bin(e, g, d), p, a)) == (NodeSet(e) + {g} + NodeSet(d)) + {p} + NodeSet(a);
      assert NodeSet(ZigZig(f).tree) <= sides;
    case (true, false) =>
      assert NodeSet(ZigZig(f).tree) <= sides;
    case (false, true) =>
      assert NodeSet(ZigZig(f).tree) <= sides;
  }

  /** What the double rotation needs to know about the nodes it is about to relink. */
  lemma ZigZigReady(m: Links, f: Focus, root: Node?)
    requires f.tree.Bin? && !f.context.Top? && !f.context.up.Top? && ApartFocus(f)
    requires LinkedContext(m, f.context, f.tree.node, root) && Linked(m, f.tree.node, f.tree)
    ensures var n, p, g := f.tree.node, f.context.node, f.context.up.node;
            && {n, p, g} <= m.Keys && n != p && n != g && p != g
            && (m[p].left == n <==> f.context.InLeft?) && (m[p].right == n <==> f.context.InRight?)
            && (m[g].left == p <==> f.context.up.InLeft?) && (m[g].right == p <==> f.context.up.InRight?)
            && LinkedContext(m, f.context.up, p, root) && LinkedContext(m, f.context.up.up, g, root)
  {
    SideOfChild(m, f, root);
    SideOfChild(m, Up(f), root);
    DoubleRotationApart(f);
  }

  // ----- What one call of the helper does ---------------------------------------------------------

  /** One step of the search. */
  function Child(f: Focus, key: Key): Focus
    requires f.tree.Bin? && key != f.tree.node.key
  {
    if key < f.tree.node.key then Focus(InLeft(f.context, f.tree.node, f.tree.right), f.tree.left)
    else Focus(InRight(f.context, f.tree.left, f.tree.node), f.tree.right)
  }

  /** One step of the search, and when it is one too many. */
  lemma TooDeepStep(f: Focus, key: Key, max: nat)
    ensures f.tree.Nil? || key == f.tree.node.key ==> !TooDeep(f.tree, key, Depth(f.context), max)
    ensures f.tree.Bin? && key != f.tree.node.key ==>
      var c := Child(f, key);
      TooDeep(f.tree, key, Depth(f.context), max) <==> Depth(f.context) > max || TooDeep(c.tree, key, Depth(c.context), max)
  {
  }

  /** The recursive call is entered at the child's link, one level further down in the same tree. */
  lemma ChildIs(f: Focus, key: Key)
    requires f.tree.Bin? && key != f.tree.node.key
    ensures var c := Child(f, key);
      && !c.context.Top? && c.context.up == f.context && Depth(c.context) == Depth(f.context) + 1
      && LinkTo(c.context) == (if key < f.tree.node.key then LeftOf(f.tree.node) else RightOf(f.tree.node))
      && Plug(c.context, c.tree) == Plug(f.context, f.tree) && c.tree < f.tree
  {
  }

  lemma FocusApart(f: Focus)
    requires Sorted(InOrder(Plug(f.context, f.tree)))
    ensures ApartFocus(f)
  {
    SortedIsApart(Plug(f.context, f.tree));
    ApartPlug(f.context, f.tree);
  }

  lemma SplayedAtEnd(f: Focus, key: Key)
    requires f.tree.Nil? && !f.context.Top?
    ensures Splayed(f.context, f.tree, key) == Up(f)
  {
    assert Depth(f.context.up) < Depth(f.context);
  }

  lemma SplayedHere(f: Focus, key: Key)
    requires f.tree.Bin? && key == f.tree.node.key
    ensures Splayed(f.context, f.tree, key) == if f.context.Top? then f else Rotate(f)
  {
    if !f.context.Top? {
      var r := Rotate(f);
      assert Climb(r, Depth(f.context)) == r;
    }
  }

  /** When the located node has been rotated past the parent, the link it used to be below holds
      something else: this is how a call recognises that it has nothing left to do. */
  lemma HandOff(m: Links, f: Focus, g: Focus)
    requires !f.context.Top? && g.tree.Bin? && g.context == f.context.up
    requires Sorted(InOrder(Plug(f.context, f.tree)))
    requires InOrder(Plug(g.context, g.tree)) == InOrder(Plug(f.context, f.tree))
    requires Linked(m, g.tree.node, g.tree)
    ensures var p := f.context.node; p in m && m[p].left != g.tree.node && m[p].right != g.tree.node
  {
    var p := f.context.node;
    FocusApart(f);
    FocusApart(g);
    assert p in NodeSet(g.tree) by {
      NodeSetIsInOrder(Plug(f.context, f.tree));
      NodeSetIsInOrder(Plug(g.context, g.tree));
      NodeSetPlug(f.context, f.tree);
      NodeSetPlug(g.context, g.tree);
      assert p in ContextSet(f.context);
    }
    ChildIsNotRoot(m, g.tree.node, g.tree, p);
  }

  lemma UniqueKeys(t: Tree)
    requires Sorted(InOrder(t))
    ensures forall x, y :: x in NodeSet(t) && y in NodeSet(t) && x.key == y.key ==> x == y
  {
    MembersAreNodeSet(t);
    forall x, y | x in Members(InOrder(t)) && y in Members(InOrder(t)) && x.key == y.key
      ensures x == y
    {
      SameKeySameNode(InOrder(t), x, y);
    }
  }

  lemma SameKeySameNode(q: seq<Node>, x: Node, y: Node)
    requires Sorted(q) && x in q && y in q && x.key == y.key
    ensures x == y
  {
    var i :| 0 <= i < |q| && q[i] == x;
    var j :| 0 <= j < |q| && q[j] == y;
  }

  /** Rebalancing on its own, outside a splay, keeps the cache right exactly when the cached key
      lies strictly between the two neighbours of the middle node. */
  lemma RebalanceKeepsCacheIff(q: seq<Node>, key: Key)
    requires Sorted(q) && |q| > 2
    ensures var m := (|q| - 1) / 2;
            Nearest(q, Balanced(q).node, key) <==> q[m - 1].key < key < q[m + 1].key
  {
    hide Balanced;
    var m := (|q| - 1) / 2;
    assert Balanced(q).node == q[m] by {
      MiddleOnTop(q);
    }
    assert q[m - 1] in q && q[m] in q && q[m + 1] in q;
    forall y | y in q
      ensures y.key <= q[m - 1].key || y == q[m] || q[m + 1].key <= y.key
    {
      var i :| 0 <= i < |q| && q[i] == y;
    }
  }

  lemma MiddleOnTop(q: seq<Node>)
    requires q != []
    ensures Balanced(q).Bin? && Balanced(q).node == q[(|q| - 1) / 2]
  {
  }

  /** Three keys and a cached first key: after rebalancing the root is not that key's node. */
  lemma RebalanceCanLeaveCacheStale(a: Node, b: Node, c: Node)
    requires a.key < b.key < c.key
    ensures Nearest([a, b, c], a, a.key) && !Nearest([a, b, c], Balanced([a, b, c]).node, a.key)
  {
    RebalanceKeepsCacheIff([a, b, c], a.key);
  }

  // ----- Inserting at and removing the root -------------------------------------------------------

  /** The tree with node on top, once the root is nearest to node's key. */
  function InsertRoot(t: Tree, node: Node): Tree {
    match t
    case Nil => Bin(Nil, node, Nil)
    case Bin(l, x, r) =>
      if x.key < node.key then Bin(Bin(l, x, Nil), node, r) else Bin(l, node, Bin(Nil, x, r))
  }

  lemma InsertRootSound(t: Tree, node: Node)
    requires Sorted(InOrder(t))
    requires t.Bin? ==> Nearest(InOrder(t), t.node, node.key) && t.node.key != node.key
    ensures Sorted(InOrder(InsertRoot(t, node)))
    ensures NodeSet(InsertRoot(t, node)) == NodeSet(t) + {node}
    ensures |InOrder(InsertRoot(t, node))| == |InOrder(t)| + 1
    ensures forall x :: x in NodeSet(t) ==> x.key != node.key
  {
    InsertRootSet(t, node);
    if t.Bin? {
      InsertRootOrder(t.left, t.node, t.right, node);
    }
  }

  lemma InsertRootSet(t: Tree, node: Node)
    ensures NodeSet(InsertRoot(t, node)) == NodeSet(t) + {node}
  {
    if t.Bin? {
      var Bin(l, x, r) := t;
      assert NodeSet(t) == NodeSet(l) + {x} + NodeSet(r);
      assert NodeSet(Bin(l, x, Nil)) == NodeSet(l) + {x} && NodeSet(Bin(Nil, x, r)) == {x} + NodeSet(r);
    } else {
      assert NodeSet(Bin(Nil, node, Nil)) == {node};
    }
  }

  lemma InsertRootOrder(l: Tree, x: Node, r: Tree, node: Node)
    requires var q := InOrder(Bin(l, x, r)); Sorted(q) && Nearest(q, x, node.key) && x.key != node.key
    ensures var q := InOrder(InsertRoot(Bin(l, x, r), node)); Sorted(q) && |q| == |InOrder(Bin(l, x, r))| + 1
    ensures forall x' :: x' in NodeSet(Bin(l, x, r)) ==> x'.key != node.key
  {
    hide Sorted, Nearest;
    MembersAreNodeSet(Bin(l, x, r));
    var a, b := InOrder(l), InOrder(r);
    assert InOrder(Bin(l, x, Nil)) == a + [x] && InOrder(Bin(Nil, x, r)) == [x] + b;
    if x.key < node.key {
      assert InOrder(Bin(Bin(l, x, Nil), node, r)) == (a + [x]) + [node] + b;
      FitsAfter(a, x, b, node);
    } else {
      assert InOrder(Bin(l, node, Bin(Nil, x, r))) == a + [node] + ([x] + b);
      FitsBefore(a, x, b, node);
    }
  }

  lemma SortedInsert(a: seq<Node>, node: Node, b: seq<Node>)
    requires Sorted(a) && Sorted(b)
    requires (forall y :: y in a ==> y.key < node.key) && (forall y :: y in b ==> node.key < y.key)
    ensures Sorted(a + [node] + b)
  {
  }

  /** A key whose predecessor is x fits between x and what follows. */
  lemma FitsAfter(a: seq<Node>, x: Node, b: seq<Node>, node: Node)
    requires Sorted(a + [x] + b) && x.key < node.key && Nearest(a + [x] + b, x, node.key)
    ensures Sorted((a + [x]) + [node] + b)
    ensures forall y :: y in a + [x] + b ==> y.key != node.key
  {
    SortedParts(a + [x], b);
    SortedPieces(a, x, b);
    assert forall y :: y in a + [x] ==> y == x || y in a;
    assert forall y :: y in b ==> y in a + [x] + b;
    SortedInsert(a + [x], node, b);
  }

  lemma FitsBefore(a: seq<Node>, x: Node, b: seq<Node>, node: Node)
    requires Sorted(a + [x] + b) && node.key < x.key && Nearest(a + [x] + b, x, node.key)
    ensures Sorted(a + [node] + ([x] + b))
    ensures forall y :: y in a + [x] + b ==> y.key != node.key
  {
    assert a + [x] + b == a + ([x] + b);
    SortedParts(a, [x] + b);
    SortedPieces(a, x, b);
    assert forall y :: y in [x] + b ==> y == x || y in b;
    assert forall y :: y in a ==> y in a + [x] + b;
    SortedInsert(a, node, [x] + b);
  }

  /** The links after node has been put on top. */
  lemma InsertRootLinked(m: Links, m': Links, root: Node?, t: Tree, node: Node)
    requires Linked(m, root, t) && Apart(t) && node !in NodeSet(t) && node in m'
    requires forall x :: x in m && x in NodeSet(t) && x != root ==> x in m' && m'[x] == m[x]
    requires t.Nil? ==> m'[node] == Children(null, null)
    requires t.Bin? && t.node.key < node.key ==>
      t.node in m && t.node in m' && m'[node] == Children(root, m[t.node].right) && m'[t.node] == m[t.node].(right := null)
    requires t.Bin? && t.node.key >= node.key ==>
      t.node in m && t.node in m' && m'[node] == Children(m[t.node].left, root) && m'[t.node] == m[t.node].(left := null)
    ensures Linked(m', node, InsertRoot(t, node))
  {
    if t.Bin? {
      var Bin(l, x, r) := t;
      LinkedFrame(m, m', m[x].left, l);
      LinkedFrame(m, m', m[x].right, r);
      assert t.node.key < node.key ==> Linked(m', x, Bin(l, x, Nil));
      assert t.node.key >= node.key ==> Linked(m', x, Bin(Nil, x, r));
    } else {
      assert Linked(m', null, Nil);
    }
  }

  /** The tree without its root. */
  function RemoveRoot(t: Tree): Tree
    requires t.Bin?
  {
    if t.left.Nil? then t.right else Join(t.left, t.right)
  }

  lemma {:induction false} JoinNil(l: Tree)
    requires l.Bin?
    ensures Join(l, Nil) == l
  {
    if l.right.Bin? {
      JoinNil(l.right);
    }
  }

  lemma {:induction false} JoinLinked(m: Links, m': Links, n: Node?, l: Tree, right: Node?, r: Tree)
    requires l.Bin? && Linked(m, n, l) && Apart(l) && Linked(m', right, r)
    requires Rightmost(l) in m && Rightmost(l) in m' && m'[Rightmost(l)] == m[Rightmost(l)].(right := right)
    requires forall x :: x in m && x in NodeSet(l) && x != Rightmost(l) ==> x in m' && m'[x] == m[x]
    ensures Linked(m', n, Join(l, r))
  {
    RightmostInSet(l);
    if l.right.Nil? {
      LinkedFrame(m, m', m[l.node].left, l.left);
    } else {
      RightmostInSet(l.right);
      LinkedFrame(m, m', m[l.node].left, l.left);
      JoinLinked(m, m', m[l.node].right, l.right, right, r);
    }
  }

  lemma RightmostInSet(t: Tree)
    requires t.Bin?
    ensures Rightmost(t) in NodeSet(t)
  {
    RightmostIsLast(t);
    MembersAreNodeSet(t);
    assert Rightmost(t) in InOrder(t);
  }

  lemma RemoveRootSound(t: Tree)
    requires t.Bin? && Sorted(InOrder(t))
    ensures Sorted(InOrder(RemoveRoot(t)))
    ensures NodeSet(RemoveRoot(t)) == NodeSet(t) - {t.node}
    ensures |InOrder(RemoveRoot(t))| == |InOrder(t)| - 1
  {
    var a, x, b := InOrder(t.left), t.node, InOrder(t.right);
    SortedPieces(a, x, b);
    if t.left.Bin? {
      JoinInOrder(t.left, t.right);
    }
    assert InOrder(RemoveRoot(t)) == a + b;
    SortedAppend(a, x, b);
    MembersAreNodeSet(t);
    MembersAreNodeSet(RemoveRoot(t));
  }

  lemma SortedAppend(a: seq<Node>, x: Node, b: seq<Node>)
    requires Sorted(a) && Sorted(b)
    requires (forall y :: y in a ==> y.key < x.key) && (forall y :: y in b ==> x.key < y.key)
    ensures Sorted(a + b)
    ensures Members(a + b) == Members(a + [x] + b) - {x}
  {
  }

  // ----- The ends of a subtree --------------------------------------------------------------------

  /** x is the node with the greatest key below key. */
  ghost predicate IsPredecessor(s: seq<Node>, x: Node, key: Key) {
    x in s && x.key < key && forall y :: y in s && y.key < key ==> y.key <= x.key
  }

  ghost predicate IsSuccessor(s: seq<Node>, x: Node, key: Key) {
    x in s && x.key > key && forall y :: y in s && y.key > key ==> y.key >= x.key
  }

  function Rightmost(t: Tree): Node
    requires t.Bin?
  {
    if t.right.Nil? then t.node else Rightmost(t.right)
  }

  function Leftmost(t: Tree): Node
    requires t.Bin?
  {
    if t.left.Nil? then t.node else Leftmost(t.left)
  }

  lemma {:induction false} RightmostIsLast(t: Tree)
    requires t.Bin?
    ensures InOrder(t) != [] && Rightmost(t) == InOrder(t)[|InOrder(t)| - 1]
  {
    if t.right.Bin? {
      RightmostIsLast(t.right);
    }
  }

  lemma {:induction false} LeftmostIsFirst(t: Tree)
    requires t.Bin?
    ensures InOrder(t) != [] && Leftmost(t) == InOrder(t)[0]
  {
    if t.left.Bin? {
      LeftmostIsFirst(t.left);
    }
  }

  /** With the nearest node on top, the predecessor is the root or the end of its left subtree. */
  lemma PredecessorFromRoot(t: Tree, key: Key)
    requires t.Bin? && Sorted(InOrder(t)) && Nearest(InOrder(t), t.node, key)
    ensures t.node.key < key ==> IsPredecessor(InOrder(t), t.node, key)
    ensures t.node.key >= key && t.left.Bin? ==> IsPredecessor(InOrder(t), Rightmost(t.left), key)
    ensures t.node.key >= key && t.left.Nil? ==> forall y :: y in InOrder(t) ==> y.key >= key
  {
    if t.left.Bin? {
      RightmostIsLast(t.left);
    }
    PredecessorAround(InOrder(t.left), t.node, InOrder(t.right), key);
  }

  lemma PredecessorAround(a: seq<Node>, x: Node, b: seq<Node>, key: Key)
    requires Sorted(a + [x] + b) && Nearest(a + [x] + b, x, key)
    ensures x.key < key ==> IsPredecessor(a + [x] + b, x, key)
    ensures x.key >= key && a != [] ==> IsPredecessor(a + [x] + b, a[|a| - 1], key)
    ensures x.key >= key && a == [] ==> forall y :: y in a + [x] + b ==> y.key >= key
  {
    SortedPieces(a, x, b);
    assert forall y :: y in a + [x] + b <==> y in a || y == x || y in b;
  }

  lemma SuccessorFromRoot(t: Tree, key: Key)
    requires t.Bin? && Sorted(InOrder(t)) && Nearest(InOrder(t), t.node, key)
    ensures t.node.key > key ==> IsSuccessor(InOrder(t), t.node, key)
    ensures t.node.key <= key && t.right.Bin? ==> IsSuccessor(InOrder(t), Leftmost(t.right), key)
    ensures t.node.key <= key && t.right.Nil? ==> forall y :: y in InOrder(t) ==> y.key <= key
  {
    if t.right.Bin? {
      LeftmostIsFirst(t.right);
    }
    SuccessorAround(InOrder(t.left), t.node, InOrder(t.right), key);
  }

  lemma SuccessorAround(a: seq<Node>, x: Node, b: seq<Node>, key: Key)
    requires Sorted(a + [x] + b) && Nearest(a + [x] + b, x, key)
    ensures x.key > key ==> IsSuccessor(a + [x] + b, x, key)
    ensures x.key <= key && b != [] ==> IsSuccessor(a + [x] + b, b[0], key)
    ensures x.key <= key && b == [] ==> forall y :: y in a + [x] + b ==> y.key <= key
  {
    SortedPieces(a, x, b);
    assert forall y :: y in a + [x] + b <==> y in a || y == x || y in b;
  }

  // ----- Relinking a range of nodes ---------------------------------------------------------------

  ghost function Members(q: seq<Node>): set<Node> {
    set x | x in q
  }

  lemma SplitMembers(q: seq<Node>, m: nat)
    requires m < |q| && Distinct(q)
    ensures Distinct(q[..m]) && Distinct(q[m + 1..])
    ensures Members(q[..m]) <= Members(q) && Members(q[m + 1..]) <= Members(q) && q[m] in Members(q)
    ensures q[m] !in Members(q[..m]) && q[m] !in Members(q[m + 1..]) && Members(q[..m]) !! Members(q[m + 1..])
  {
    assert q == q[..m] + [q[m]] + q[m + 1..];
  }

  lemma BalancedMembers(q: seq<Node>)
    ensures NodeSet(Balanced(q)) == Members(q)
  {
    BalancedInOrder(q);
    NodeSetIsInOrder(Balanced(q));
  }

  lemma MembersAreNodeSet(t: Tree)
    ensures Members(InOrder(t)) == NodeSet(t)
  {
    NodeSetIsInOrder(t);
  }

  /** m and m' differ only at nodes in s. */
  ghost predicate ChangedOnly(m: Links, m': Links, s: set<Node>) {
    m.Keys == m'.Keys && forall x :: x in m && x !in s ==> m'[x] == m[x]
  }

  /** The middle node on top of two relinked halves: mL and mR are the links after the two halves
      have been relinked, and right after each its root is stored in the middle node. */
  lemma RelinkCombines(m0: Links, mL: Links, left: Node?, mR: Links, right: Node?, q: seq<Node>)
    requires q != [] && Distinct(q) && Members(q) <= m0.Keys
    requires var m := (|q| - 1) / 2;
             && ChangedOnly(m0, mL, Members(q[..m])) && Linked(mL, left, Balanced(q[..m]))
             && q[m] in mL && ChangedOnly(mL[q[m] := mL[q[m]].(left := left)], mR, Members(q[m + 1..]))
             && Linked(mR, right, Balanced(q[m + 1..]))
    ensures var n := q[(|q| - 1) / 2];
            && n in mR && var m' := mR[n := mR[n].(right := right)];
            Linked(m', n, Balanced(q)) && ChangedOnly(m0, m', Members(q))
  {
    var m := (|q| - 1) / 2;
    var n, l, r := q[m], q[..m], q[m + 1..];
    SplitMembers(q, m);
    BalancedMembers(l);
    BalancedMembers(r);
    var m' := mR[n := mR[n].(right := right)];
    LinkedFrame(mL, m', left, Balanced(l));
    LinkedFrame(mR, m', right, Balanced(r));
  }

  // ----- The explicit-stack walk ------------------------------------------------------------------

  datatype Stage = SLeft | SHere | SRight | SUp

  /** The nodes on the path of c, outermost first: what the walk keeps in its first stack. */
  function PathNodes(c: Context): seq<Node> {
    if c.Top? then [] else PathNodes(c.up) + [c.node]
  }

  /** The stages of those nodes: what the walk keeps in its second stack. */
  function PathStages(c: Context): seq<Stage> {
    if c.Top? then [] else PathStages(c.up) + [if c.InLeft? then SHere else SUp]
  }

  lemma {:induction false} PathLengths(c: Context)
    ensures |PathNodes(c)| == |PathStages(c)| == Depth(c)
  {
    if !c.Top? {
      PathLengths(c.up);
    }
  }

  /** The part of t that has been visited when its root is at the given stage. */
  function Visited(t: Tree, stage: Stage): seq<Node>
    requires t.Bin?
  {
    match stage
    case SLeft => []
    case SHere => InOrder(t.left)
    case SRight => InOrder(t.left) + [t.node]
    case SUp => InOrder(t)
  }


  /** The iterations spent below t when its root is at the given stage. */
  function StepsIn(t: Tree, stage: Stage): nat
    requires t.Bin?
  {
    match stage
    case SLeft => 0
    case SHere => 1 + 4 * Size(t.left)
    case SRight => 2 + 4 * Size(t.left)
    case SUp => 3 + 4 * Size(t.left) + 4 * Size(t.right)
  }

  /** The iterations spent before the hole of c was entered. */
  function StepsBefore(c: Context): nat {
    match c
    case Top => 0
    case InLeft(up, _, _) => StepsBefore(up) + 1
    case InRight(up, l, _) => StepsBefore(up) + 3 + 4 * Size(l)
  }

  lemma {:induction false} StepsBound(c: Context, t: Tree, stage: Stage)
    requires t.Bin?
    ensures StepsBefore(c) + StepsIn(t, stage) < 4 * Size(Plug(c, t))
    ensures Depth(c) < Size(Plug(c, t))
  {
    InOrderPlug(c, t);
    DepthBelowSize(c);
    StepsAround(c, t);
  }

  lemma {:induction false} StepsAround(c: Context, t: Tree)
    ensures StepsBefore(c) + 4 * Size(t) <= 4 * Size(Plug(c, t))
  {
    match c
    case Top =>
    case InLeft(up, x, r) => StepsAround(up, Bin(t, x, r));
    case InRight(up, l, x) => StepsAround(up, Bin(l, x, t));
  }

  /** The nodes visited when the walk is at t below c. */
  function VisitedBy(c: Context, t: Tree, stage: Stage): seq<Node>
    requires t.Bin?
  {
    Before(c) + Visited(t, stage)
  }

  /** The iterations spent by then. */
  function StepsBy(c: Context, t: Tree, stage: Stage): nat
    requires t.Bin?
  {
    StepsBefore(c) + StepsIn(t, stage)
  }

  /** One iteration that stays at t or goes down visits just t's node, at stage SHere. */
  lemma OneStepDown(c: Context, t: Tree)
    requires t.Bin?
    ensures VisitedBy(c, t, SLeft) == VisitedBy(c, t, SHere) || t.left.Bin?
    ensures t.left.Bin? ==> VisitedBy(c, t, SLeft) == VisitedBy(InLeft(c, t.node, t.right), t.left, SLeft)
    ensures VisitedBy(c, t, SRight) == VisitedBy(c, t, SHere) + [t.node]
    ensures VisitedBy(c, t, SRight) == VisitedBy(c, t, SUp) || t.right.Bin?
    ensures t.right.Bin? ==> VisitedBy(c, t, SRight) == VisitedBy(InRight(c, t.left, t.node), t.right, SLeft)
    ensures t.left.Nil? ==> StepsBy(c, t, SLeft) + 1 == StepsBy(c, t, SHere)
    ensures t.left.Bin? ==> StepsBy(c, t, SLeft) + 1 == StepsBy(InLeft(c, t.node, t.right), t.left, SLeft)
    ensures StepsBy(c, t, SHere) + 1 == StepsBy(c, t, SRight)
    ensures t.right.Nil? ==> StepsBy(c, t, SRight) + 1 == StepsBy(c, t, SUp)
    ensures t.right.Bin? ==> StepsBy(c, t, SRight) + 1 == StepsBy(InRight(c, t.left, t.node), t.right, SLeft)
  {
    var b, a, x, d := Before(c), InOrder(t.left), [t.node], InOrder(t.right);
    assert b + (a + x) == (b + a) + x;
    assert t.right.Nil? ==> InOrder(t) == a + x;
    assert t.right.Bin? ==> Before(InRight(c, t.left, t.node)) + [] == b + (a + x);
  }

  /** Leaving a finished subtree visits nothing. */
  lemma OneStepUp(c: Context, t: Tree)
    requires t.Bin? && !c.Top?
    ensures var up, stage := Up(Focus(c, t)).tree, if c.InLeft? then SHere else SUp;
            VisitedBy(c, t, SUp) == VisitedBy(c.up, up, stage) && StepsBy(c, t, SUp) + 1 == StepsBy(c.up, up, stage)
  {
    var b, d := Before(c.up), InOrder(t);
    assert Size(t) == Size(t.left) + 1 + Size(t.right);
    if c.InRight? {
      var a, x := InOrder(c.left), [c.node];
      assert (b + a + x) + d == b + (a + x + d);
    }
  }

  lemma WalkComplete(t: Tree)
    requires t.Bin?
    ensures VisitedBy(Top, t, SUp) == InOrder(t) && StepsBy(Top, t, SUp) + 1 == 4 * Size(t)
  {
    var b := InOrder(t);
    assert [] + b == b;
    assert Size(t) == Size(t.left) + 1 + Size(t.right);
  }

  lemma WalkIsPrefix(c: Context, t: Tree, stage: Stage)
    requires t.Bin?
    ensures VisitedBy(c, t, stage) <= InOrder(Plug(c, t))
  {
    InOrderPlug(c, t);
    assert Visited(t, stage) <= InOrder(t);
  }

  /** The walk's state: the subtree at hand, both stacks up to their tops, the nodes visited and
      the iterations spent. */
  datatype Walk = Walk(focus: Focus, nodes: seq<Node?>, stages: seq<Stage>, visited: seq<Node>, steps: nat)
  {
    function Stage(): Stage
      requires stages != []
    {
      stages[|stages| - 1]
    }

    /** The stacks hold the path of the subtree at hand, and the walk has visited what precedes it. */
    ghost predicate On(whole: Tree) {
      var Focus(c, t) := focus;
      && t.Bin? && Plug(c, t) == whole
      && nodes == PathNodes(c) + [t.node]
      && |stages| == Depth(c) + 1 && stages[..Depth(c)] == PathStages(c)
      && visited == VisitedBy(c, t, Stage())
      && steps == StepsBy(c, t, Stage())
    }

    /** The next iteration, with child the left or right child of the top node. */
    function Down(child: Node?): Walk
      requires stages != [] && focus.tree.Bin?
    {
      var Focus(c, t) := focus;
      var after := stages[|stages| - 1 := if Stage() == SLeft then SHere else SUp];
      if child == null then this.(stages := after, steps := steps + 1)
      else
        this.(
        focus := if Stage() == SLeft then Focus(InLeft(c, t.node, t.right), t.left) else Focus(InRight(c, t.left, t.node), t.right),
        nodes := nodes + [child], stages := after + [SLeft], steps := steps + 1)
    }

    function Here(n: Node): Walk
      requires stages != []
    {
      this.(stages := stages[|stages| - 1 := SRight], visited := visited + [n], steps := steps + 1)
    }

    function Out(): Walk
      requires !focus.context.Top? && nodes != [] && stages != []
    {
      this.(focus := Up(focus), nodes := nodes[..|nodes| - 1], stages := stages[..|stages| - 1], steps := steps + 1)
    }
  }

  lemma WalkStarts(whole: Tree)
    requires whole.Bin?
    ensures Walk(Focus(Top, whole), [whole.node], [SLeft], [], 0).On(whole)
  {
  }

  /** The stacks hold no more nodes than the tree has, and the walk ends after four iterations
      for each of them. */
  lemma WalkBounds(w: Walk, whole: Tree)
    requires w.On(whole)
    ensures 0 < |w.nodes| == |w.stages| <= Size(whole)
    ensures w.focus.tree.Bin? && w.nodes[|w.nodes| - 1] == w.focus.tree.node
    ensures w.steps < 4 * Size(whole)
  {
    PathLengths(w.focus.context);
    StepsBound(w.focus.context, w.focus.tree, w.Stage());
  }

  lemma WalkDown(w: Walk, m: Links, root: Node?, whole: Tree)
    requires w.On(whole) && Linked(m, root, whole)
    requires w.stages != [] && (w.Stage() == SLeft || w.Stage() == SRight)
    ensures w.focus.tree.Bin? && w.focus.tree.node in m
    ensures var child := if w.Stage() == SLeft then m[w.focus.tree.node].left else m[w.focus.tree.node].right;
            w.Down(child).On(whole) && w.Down(child).visited == w.visited && w.Down(child).steps == w.steps + 1
            && |w.Down(child).nodes| == |w.nodes| + (if child == null then 0 else 1)
  {
    var Focus(c, t) := w.focus;
    LinkedUnplug(m, root, c, t);
    assert Linked(m, m[t.node].left, t.left) && Linked(m, m[t.node].right, t.right);
    OneStepDown(c, t);
    var child := if w.Stage() == SLeft then m[t.node].left else m[t.node].right;
    var after := if w.Stage() == SLeft then SHere else SUp;
    var v := w.Down(child);
    if child != null {
      assert v.stages[..Depth(c) + 1] == PathStages(c) + [after];
      assert Plug(v.focus.context, v.focus.tree) == whole;
    } else {
      assert v.stages[..Depth(c)] == PathStages(c);
    }
  }

  lemma WalkHere(w: Walk, whole: Tree)
    requires w.On(whole) && w.Stage() == SHere
    ensures w.focus.tree.Bin? && w.Here(w.focus.tree.node).On(whole)
    ensures var v := w.Here(w.focus.tree.node);
            v.visited == w.visited + [w.focus.tree.node] && v.steps == w.steps + 1 && v.visited <= InOrder(whole)
  {
    OneStepDown(w.focus.context, w.focus.tree);
    var v := w.Here(w.focus.tree.node);
    assert v.stages[..Depth(w.focus.context)] == PathStages(w.focus.context);
    WalkIsPrefix(w.focus.context, w.focus.tree, SRight);
  }

  lemma WalkOut(w: Walk, whole: Tree)
    requires w.On(whole) && w.Stage() == SUp
    ensures w.focus.context.Top? <==> |w.nodes| == 1
    ensures w.focus.context.Top? ==> w.visited == InOrder(whole) && w.steps + 1 == 4 * Size(whole)
    ensures !w.focus.context.Top? ==>
      w.Out().On(whole) && w.Out().visited == w.visited && w.Out().steps == w.steps + 1
  {
    var Focus(c, t) := w.focus;
    PathLengths(c);
    if c.Top? {
      WalkComplete(t);
    } else {
      OneStepUp(c, t);
      var v := w.Out();
      assert v.stages == PathStages(c);
      assert v.stages[..Depth(c.up)] == PathStages(c.up);
      assert Plug(v.focus.context, v.focus.tree) == whole;
    }
  }

  /** A subtree of a linked tree is linked. */
  lemma {:induction false} LinkedUnplug(m: Links, root: Node?, c: Context, t: Tree)
    requires t.Bin? && Linked(m, root, Plug(c, t))
    ensures Linked(m, t.node, t)
  {
    if !c.Top? {
      LinkedUnplug(m, root, c.up, Up(Focus(c, t)).tree);
    }
  }

  class SplayTree {
    var root: Node?
    var lastSplayedKey: Key
    var lastSplayedKeyP: bool
    var numKeys: nat
    var maxDepth: nat
    var depth: nat
    var rebalanceP: bool
    ghost var tree: Tree

    function Read(link: Link): Node?
      reads this, Owner(link)
    {
      match link
      case RootLink => root
      case LeftOf(x) => x.left
      case RightOf(x) => x.right
      case NoLink => null
    }

    /** Store through a link: only the owner's field, or the root field, changes. */
    method Write(link: Link, v: Node?, ghost c: Context, ghost s: set<Node>)
      requires link == LinkTo(c) && Owner(link) <= s
      modifies this`root, Owner(link)`left, Owner(link)`right
      ensures root == if link.RootLink? then v else old(root)
      ensures LinksOf(s) == Stored(old(LinksOf(s)), c, v)
    {
      match link {
        case NoLink =>
        case RootLink => root := v;
        case LeftOf(x) => x.left := v;
        case RightOf(x) => x.right := v;
      }
      assert LinksOf(s) == Stored(old(LinksOf(s)), c, v);
    }

    /** The nodes s are linked as f says, with n on top of the subtree in focus. */
    ghost predicate Holds(s: set<Node>, f: Focus, n: Node?)
      reads this`root, s
    {
      LinkedContext(LinksOf(s), f.context, n, root) && Linked(LinksOf(s), n, f.tree)
    }

    /** The helper's rotation when the parent is the root. */
    method RotateOnce(node: Link, parent: Link, n: Node, ghost f: Focus, ghost s: set<Node>)
      requires f.tree.Bin? && !f.context.Top? && f.context.up.Top? && n == f.tree.node
      requires node == LinkTo(f.context) && parent == RootLink
      requires Holds(s, f, n) && ApartFocus(f)
      modifies this`root, s`left, s`right
      ensures Holds(s, Rotate(f), n)
    {
      ghost var m, oldRoot := LinksOf(s), root;
      ZigLinked(m, f, root);
      PathLinked(m, f.context, n, root);
      SideOfChild(m, f, root);
      var p := Read(parent);
      if n == p.left {
        Write(node, n.right, f.context, s);
        n.right := p;
      } else {
        Write(node, n.left, f.context, s);
        n.left := p;
      }
      Write(parent, n, Top, s);
      assert LinksOf(s) == ZigLinks(m, f);
    }

    /** The helper's double rotation past the parent and the grandparent. */
    method RotateTwice(parent: Link, grandparent: Link, n: Node, ghost f: Focus, ghost s: set<Node>)
      requires f.tree.Bin? && !f.context.Top? && !f.context.up.Top? && n == f.tree.node
      requires parent == LinkTo(f.context.up) && grandparent == LinkTo(f.context.up.up)
      requires Holds(s, f, n) && ApartFocus(f)
      modifies this`root, s`left, s`right
      ensures Holds(s, Rotate(f), n)
    {
      ghost var m, up := LinksOf(s), f.context.up.up;
      ZigZigReady(m, f, root);
      ZigZigStored(m, f, root);
      assert Rotate(f) == ZigZig(f) && ZigZig(f).context == up;
      hide Holds, LinkedContext, Linked, ApartFocus, ApartContext, Apart, NodeSet, ContextSet, ZigZig, Rotate;
      HoleIsRead(s, f.context.up, f.context.node);
      HoleIsRead(s, up, f.context.up.node);
      var p, g := Read(parent), Read(grandparent);
      Relink(n, p, g, f, s);
      Write(grandparent, n, up, s);
      HoldsIfLinked(s, Rotate(f), n);
    }

    lemma HoldsIfLinked(s: set<Node>, f: Focus, n: Node?)
      requires LinkedContext(LinksOf(s), f.context, n, root) && Linked(LinksOf(s), n, f.tree)
      ensures Holds(s, f, n)
    {
    }

    lemma HoleIsRead(s: set<Node>, c: Context, hole: Node?)
      requires LinkedContext(LinksOf(s), c, hole, root)
      ensures Read(LinkTo(c)) == hole
      ensures Owner(LinkTo(c)) <= s
    {
    }

    /** The pointer assignments of a double rotation, except the last. */
    method Relink(n: Node, p: Node, g: Node, ghost f: Focus, ghost s: set<Node>)
      requires f.tree.Bin? && !f.context.Top? && !f.context.up.Top?
      requires n == f.tree.node && p == f.context.node && g == f.context.up.node
      requires {n, p, g} <= s && n != p && n != g && p != g
      requires (n == p.left <==> f.context.InLeft?) && (n == p.right <==> f.context.InRight?)
      requires (p == g.left <==> f.context.up.InLeft?) && (p == g.right <==> f.context.up.InRight?)
      modifies s`left, s`right
      ensures LinksOf(s) == ZigZigLinks(old(LinksOf(s)), f)
    {
      ghost var m := LinksOf(s);
      if n == p.left && p == g.left {
        g.left := p.right;
        p.right := g;
        p.left := n.right;
        n.right := p;
      } else if n == p.right && p == g.right {
        g.right := p.left;
        p.left := g;
        p.right := n.left;
        n.left := p;
      } else if n == p.left {
        p.left := n.right;
        n.right := p;
        g.right := n.left;
        n.left := g;
      } else {
        p.right := n.left;
        n.left := p;
        g.left := n.right;
        n.right := g;
      }
      assert LinksOf(s) == ZigZigLinks(m, f);
    }

    /** What a call finds at its link. */
    lemma FocusIsRead(s: set<Node>, f: Focus)
      requires Owner(LinkTo(f.context)) <= s && Holds(s, f, Read(LinkTo(f.context)))
      ensures var x := Read(LinkTo(f.context)); if f.tree.Nil? then x == null else x == f.tree.node && x in s
      ensures !f.context.Top? ==> Holds(s, Up(f), f.context.node)
      ensures !f.context.Top? ==> Read(LinkTo(f.context.up)) == f.context.node
    {
      if !f.context.Top? {
        HoleIsRead(s, f.context.up, f.context.node);
      }
    }

    lemma ChildIsHeld(s: set<Node>, f: Focus, key: Key)
      requires f.tree.Bin? && key != f.tree.node.key
      requires Holds(s, f, f.tree.node)
      ensures var c := Child(f, key); Owner(LinkTo(c.context)) <= s && Holds(s, c, Read(LinkTo(c.context)))
    {
    }

    /** After the inner call, the link of f holds the located node exactly when the node was left
        there for this call to rotate. */
    lemma ReturnedTo(s: set<Node>, f: Focus, key: Key, n: Node)
      requires f.tree.Bin? && key != f.tree.node.key
      requires Sorted(InOrder(Plug(f.context, f.tree))) && Owner(LinkTo(f.context)) <= s
      requires var c := Child(f, key); var g := Splayed(c.context, c.tree, key); n == g.tree.node && Holds(s, g, n)
      ensures var c := Child(f, key); var g := Splayed(c.context, c.tree, key);
              && (Read(LinkTo(f.context)) == n <==> g.context == f.context)
              && Sorted(InOrder(Plug(g.context, g.tree)))
              && Splayed(f.context, f.tree, key) == if g.context == f.context && !f.context.Top? then Rotate(g) else g
    {
      var c := Child(f, key);
      var g := Splayed(c.context, c.tree, key);
      SplayedStep(f.context, f.tree, key);
      SplayedNear(c.context, c.tree, key);
      SplayedKeepsOrder(c.context, c.tree, key);
      if g.context == f.context {
        HoleIsRead(s, f.context, n);
      } else {
        HandOff(LinksOf(s), f, g);
      }
    }

    /** The recursive search and bottom-up splay.  It is entered at the link of f.context, whose
        subtree is f.tree, and leaves the tree as Splayed says; if the search would run deeper
        than maxDepth it leaves the tree alone and raises rebalanceP. */
    method SplayHelper(key: Key, node: Link, parent: Link, grandparent: Link,
                       ghost f: Focus, ghost s: set<Node>) returns (n: Node?)
      requires f.tree.Bin? || !f.context.Top?
      requires node == LinkTo(f.context)
      requires parent == if f.context.Top? then NoLink else LinkTo(f.context.up)
      requires grandparent == if f.context.Top? || f.context.up.Top? then NoLink else LinkTo(f.context.up.up)
      requires Sorted(InOrder(Plug(f.context, f.tree)))
      requires Owner(node) <= s && Holds(s, f, Read(node))
      requires depth == Depth(f.context) && !rebalanceP
      modifies this`root, this`depth, this`rebalanceP, s`left, s`right
      ensures depth == old(depth)
      ensures rebalanceP <==> TooDeep(f.tree, key, Depth(f.context), maxDepth)
      ensures rebalanceP ==> root == old(root) && LinksOf(s) == old(LinksOf(s))
      ensures !rebalanceP ==>
        var r := Splayed(f.context, f.tree, key); n == r.tree.node && Holds(s, r, n)
      decreases f.tree
    {
      FocusIsRead(s, f);
      TooDeepStep(f, key, maxDepth);
      hide *;
      var x := Read(node);
      if x == null {
        SplayedAtEnd(f, key);
        n := Read(parent);
        return;
      }
      var next := if key == x.key then NoLink else if key < x.key then LeftOf(x) else RightOf(x);
      n := x;
      ghost var g := f;
      if next != NoLink {
        if depth > maxDepth {
          rebalanceP := true;
          return;
        }
        ghost var child := Child(f, key);
        ChildIs(f, key);
        ChildIsHeld(s, f, key);
        depth := depth + 1;
        n := SplayHelper(key, next, node, parent, child, s);
        depth := depth - 1;
        if rebalanceP {
          return;
        }
        g := Splayed(child.context, child.tree, key);
        ReturnedTo(s, f, key, n);
        if Read(node) != n {
          return;
        }
      } else {
        SplayedHere(f, key);
      }
      RotateHere(node, parent, grandparent, n, g, s);
    }

    /** The helper's last part: rotate n past its parent and, if there is one, its grandparent. */
    method RotateHere(node: Link, parent: Link, grandparent: Link, n: Node, ghost f: Focus, ghost s: set<Node>)
      requires f.tree.Bin? && n == f.tree.node
      requires node == LinkTo(f.context)
      requires parent == if f.context.Top? then NoLink else LinkTo(f.context.up)
      requires grandparent == if f.context.Top? || f.context.up.Top? then NoLink else LinkTo(f.context.up.up)
      requires Sorted(InOrder(Plug(f.context, f.tree))) && Holds(s, f, n)
      modifies this`root, s`left, s`right
      ensures Holds(s, if f.context.Top? then f else Rotate(f), n)
    {
      if parent == NoLink {
        return;
      }
      FocusApart(f);
      if grandparent == NoLink {
        RotateOnce(node, parent, n, f, s);
      } else {
        RotateTwice(parent, grandparent, n, f, s);
      }
    }

    /** The tree is properly linked and its keys ascend; the cache is not constrained. */
    ghost predicate Structure()
      reads this`root, this`tree, this`numKeys, NodeSet(tree)
    {
      && Linked(LinksOf(NodeSet(tree)), root, tree)
      && Sorted(InOrder(tree))
      && numKeys == Size(tree) <= UINT_MAX
    }

    /** fn returns zero at every one of these nodes. */
    static ghost predicate Continues(fn: Node -> int, nodes: seq<Node>) {
      forall x :: x in nodes ==> fn(x) == 0
    }

    static lemma NothingVisited(fn: Node -> int)
      ensures Continues(fn, [])
    {
    }

    static lemma StartSynced(stack1: array<Node?>, stack2: array<Stage>, w: Walk)
      requires 0 < stack1.Length == stack2.Length
      requires w.nodes == [stack1[0]] && w.stages == [stack2[0]]
      ensures Synced(w, stack1, stack2, 0)
    {
    }

    static lemma ContinuesOn(fn: Node -> int, nodes: seq<Node>, n: Node)
      requires Continues(fn, nodes) && fn(n) == 0
      ensures Continues(fn, nodes + [n])
    {
    }

    /** The stacks, up to their tops, are those of w. */
    static ghost predicate Synced(w: Walk, stack1: array<Node?>, stack2: array<Stage>, sp: nat)
      reads stack1, stack2
    {
      sp < stack1.Length == stack2.Length && stack1[..sp + 1] == w.nodes && stack2[..sp + 1] == w.stages
    }

    /** Record that the top node's child has been dealt with and put the child, if any, on top. */
    static method Descend(stack1: array<Node?>, stack2: array<Stage>, sp: nat, child: Node?, ghost w: Walk)
      returns (top: nat)
      requires Synced(w, stack1, stack2, sp) && w.focus.tree.Bin? && (child != null ==> sp + 1 < stack1.Length)
      modifies stack1, stack2
      ensures Synced(w.Down(child), stack1, stack2, top)
    {
      stack2[sp] := if stack2[sp] == SLeft then SHere else SUp;
      top := sp;
      if child != null {
        top := sp + 1;
        stack1[top] := child;
        stack2[top] := SLeft;
      }
    }

    static method MarkVisited(stack1: array<Node?>, stack2: array<Stage>, sp: nat, n: Node, ghost w: Walk)
      requires Synced(w, stack1, stack2, sp)
      modifies stack2
      ensures Synced(w.Here(n), stack1, stack2, sp)
    {
      stack2[sp] := SRight;
    }

    static lemma Popped(stack1: array<Node?>, stack2: array<Stage>, sp: nat, w: Walk)
      requires Synced(w, stack1, stack2, sp) && sp > 0 && !w.focus.context.Top?
      ensures w.nodes != [] && w.stages != [] && Synced(w.Out(), stack1, stack2, sp - 1)
    {
      assert stack1[..sp + 1][..sp] == stack1[..sp];
      assert stack2[..sp + 1][..sp] == stack2[..sp];
    }

    static lemma Tops(stack1: array<Node?>, stack2: array<Stage>, sp: nat, w: Walk)
      requires Synced(w, stack1, stack2, sp)
      ensures |w.nodes| == |w.stages| == sp + 1 && stack1[sp] == w.nodes[sp] && stack2[sp] == w.Stage()
    {
    }

    /** Visits the nodes in key order with two stacks instead of recursion, until fn says stop. */
    method ForEach(fn: Node -> int) returns (val: int, visited: seq<Node>, ghost steps: nat)
      requires Structure()
      ensures visited <= InOrder(tree)
      ensures val == 0 ==> visited == InOrder(tree) && steps == 4 * numKeys
      ensures val != 0 ==> visited != [] && fn(visited[|visited| - 1]) == val
      ensures Continues(fn, if val == 0 then visited else visited[..|visited| - 1])
    {
      if root == null {
        return 0, [], 0;
      }
      val, visited, steps := Traverse(fn, LinksOf(NodeSet(tree)));
    }

    /** The loop of the walk. */
    method Traverse(fn: Node -> int, ghost m: Links) returns (val: int, visited: seq<Node>, ghost steps: nat)
      requires tree.Bin? && Size(tree) == numKeys > 0 && root == tree.node && Linked(m, root, tree)
      requires forall x :: x in m ==> m[x] == Children(x.left, x.right)
      ensures visited <= InOrder(tree)
      ensures val == 0 ==> visited == InOrder(tree) && steps == 4 * numKeys
      ensures val != 0 ==> visited != [] && fn(visited[|visited| - 1]) == val
      ensures Continues(fn, if val == 0 then visited else visited[..|visited| - 1])
    {
      hide *;
      val, visited, steps := 0, [], 0;
      var stack1 := new Node?[numKeys];
      var stack2 := new Stage[numKeys];
      var sp: nat := 0;
      stack1[sp] := root;
      stack2[sp] := SLeft;
      ghost var w := Walk(Focus(Top, tree), [root], [SLeft], [], 0);
      WalkStarts(tree);
      StartSynced(stack1, stack2, w);
      NothingVisited(fn);
      while true
        invariant fresh(stack1) && fresh(stack2) && stack1.Length == stack2.Length == numKeys
        invariant Synced(w, stack1, stack2, sp)
        invariant w.On(tree) && visited == w.visited && steps == w.steps
        invariant val == 0 && Continues(fn, visited)
        decreases 4 * numKeys - steps
      {
        Tops(stack1, stack2, sp, w);
        WalkBounds(w, tree);
        var n := stack1[sp];
        steps := steps + 1;
        if stack2[sp] == SHere {
          WalkHere(w, tree);
          MarkVisited(stack1, stack2, sp, n, w);
          visited := visited + [n];
          val := fn(n);
          if val != 0 {
            break;
          }
          ContinuesOn(fn, w.visited, n);
          w := w.Here(n);
        } else if stack2[sp] == SUp {
          WalkOut(w, tree);
          if sp == 0 {
            break;
          }
          Popped(stack1, stack2, sp, w);
          sp := sp - 1;
          w := w.Out();
        } else { // SLeft or SRight
          WalkDown(w, m, root, tree);
          var child := if stack2[sp] == SLeft then n.left else n.right;
          WalkBounds(w.Down(child), tree);
          sp := Descend(stack1, stack2, sp, child, w);
          w := w.Down(child);
        }
      }
    }

    // ----- The object invariant and the map it stands for -----------------------------------------

    /** The structure is sound and, if a splayed key is cached, the root is still that key's node
        or, if it has none, the node of its neighbour. */
    ghost predicate Valid()
      reads this`root, this`tree, this`numKeys, this`lastSplayedKeyP, this`lastSplayedKey, NodeSet(tree)
    {
      Structure() && (lastSplayedKeyP ==> tree.Bin? && Nearest(InOrder(tree), tree.node, lastSplayedKey))
    }

    /** The finite ordered map that the tree stands for. */
    ghost function Contents(): (m: map<Key, Address>)
      requires Structure()
      reads this`root, this`tree, this`numKeys, NodeSet(tree)
    {
      UniqueKeys(tree);
      map x | x in NodeSet(tree) :: x.key := x.value
    }

    // ----- Rebalancing ----------------------------------------------------------------------------

    /** Relink a[low..high] (both inclusive) as a balanced tree. */
    static method RelinkRange(a: array<Node>, low: nat, high: nat, ghost q: seq<Node>, ghost s: set<Node>)
      returns (n: Node)
      requires low <= high < a.Length && q == a[low..high + 1]
      requires Distinct(q) && Members(q) <= s
      modifies Members(q)`left, Members(q)`right
      ensures Linked(LinksOf(s), n, Balanced(q))
      ensures ChangedOnly(old(LinksOf(s)), LinksOf(s), Members(q))
      decreases high - low
    {
      hide *;
      var middle := low + (high - low) / 2;
      n := a[middle];
      ghost var m := (|q| - 1) / 2;
      ghost var l, r := q[..m], q[m + 1..];
      assert l == a[low..middle] && n == q[m] && r == a[middle + 1..high + 1];
      SplitMembers(q, m);
      ghost var m0 := KnownLinks(s);
      var left: Node? := null;
      if low + 1 <= middle {
        left := RelinkRange(a, low, middle - 1, l, s);
      } else {
        NothingToRelink(l, m0);
      }
      ghost var mL := KnownLinks(s);
      StoreLeft(n, left, s);
      ghost var m1 := LinksOf(s);
      var right: Node? := null;
      if middle + 1 <= high {
        right := RelinkRange(a, middle + 1, high, r, s);
      } else {
        NothingToRelink(r, m1);
      }
      ghost var mR := KnownLinks(s);
      StoreRight(n, right, s);
      RelinkCombines(m0, mL, left, mR, right, q);
    }

    static lemma NothingToRelink(q: seq<Node>, m: Links)
      requires q == []
      ensures Linked(m, null, Balanced(q)) && ChangedOnly(m, m, Members(q))
    {
    }

    static lemma KnownLinks(s: set<Node>) returns (m: Links)
      ensures m == LinksOf(s) && m.Keys == s
    {
      m := LinksOf(s);
    }

    static method StoreLeft(n: Node, v: Node?, ghost s: set<Node>)
      requires n in s && n in LinksOf(s)
      modifies n`left
      ensures LinksOf(s) == old(LinksOf(s))[n := old(LinksOf(s))[n].(left := v)]
    {
      n.left := v;
    }

    static method StoreRight(n: Node, v: Node?, ghost s: set<Node>)
      requires n in s && n in LinksOf(s)
      modifies n`right
      ensures LinksOf(s) == old(LinksOf(s))[n := old(LinksOf(s))[n].(right := v)]
    {
      n.right := v;
    }

    /** Relink the whole tree in balanced form.  The cache of the last splayed key is not touched,
        so afterwards it is right only if the new root happens to be nearest to that key. */
    method Rebalance()
      requires Structure()
      modifies this`root, this`tree, NodeSet(tree)`left, NodeSet(tree)`right
      ensures Structure()
      ensures tree == if numKeys <= 2 then old(tree) else Balanced(old(InOrder(tree)))
      ensures InOrder(tree) == old(InOrder(tree)) && NodeSet(tree) == old(NodeSet(tree))
    {
      hide *;
      if numKeys <= 2 {
        return;
      }
      ghost var nodes, s := InOrder(tree), NodeSet(tree);
      RebalanceReady();
      var val, visited, _ := ForEach((n: Node) => 0);
      assert val == 0;
      var allNodes := new Node[|visited|](i requires 0 <= i < |visited| => visited[i]);
      assert allNodes[..] == nodes && allNodes[0..numKeys] == nodes;
      var r := RelinkRange(allNodes, 0, numKeys - 1, nodes, s);
      root := r;
      tree := Balanced(nodes);
      Rebalanced(nodes);
    }

    lemma RebalanceReady()
      requires Structure()
      ensures var q := InOrder(tree);
              && |q| == numKeys <= UINT_MAX && Sorted(q) && Distinct(q) && Members(q) == NodeSet(tree)
              && InOrder(Balanced(q)) == q && NodeSet(Balanced(q)) == NodeSet(tree)
    {
      hide Linked, Distinct, Members, NodeSet, Sorted;
      SortedIsDistinct(InOrder(tree));
      MembersAreNodeSet(tree);
      BalancedInOrder(InOrder(tree));
      BalancedMembers(InOrder(tree));
    }

    lemma Rebalanced(q: seq<Node>)
      requires tree == Balanced(q) && InOrder(tree) == q && Sorted(q) && |q| == numKeys <= UINT_MAX
      requires Linked(LinksOf(NodeSet(tree)), root, tree)
      ensures Structure()
    {
    }

    // ----- The operations -------------------------------------------------------------------------

    /** The relinked tree of fewer than 2^32 nodes is shallow enough for any search. */
    lemma BalancedIsShallow(q: seq<Node>, key: Key)
      requires |q| <= UINT_MAX
      ensures !TooDeep(Balanced(q), key, 0, MAX_DEPTH)
    {
      Pow2Is32();
      BalancedHeightBound(q, 32);
      ShallowIsNotTooDeep(Balanced(q), key, 0, MAX_DEPTH);
    }

    static lemma Pow2Is32()
      ensures Pow2(32) == UINT_MAX + 1
    {
      assert Pow2(8) == 0x100;
      assert Pow2(16) == 0x100 * Pow2(8);
      assert Pow2(24) == 0x100 * Pow2(16);
      assert Pow2(32) == 0x100 * Pow2(24);
    }

    /** Bring key, or its neighbour, to the root.  The keys, their values and their order stay;
        afterwards the key is cached.  The abort that guards the second attempt is never reached. */
    method Splay(key: Key)
      requires Valid()
      modifies this, NodeSet(tree)`left, NodeSet(tree)`right
      ensures Valid()
      ensures InOrder(tree) == old(InOrder(tree)) && NodeSet(tree) == old(NodeSet(tree)) && numKeys == old(numKeys)
      ensures tree.Nil? <==> root == null
      ensures tree.Bin? ==> lastSplayedKeyP && lastSplayedKey == key && root == tree.node
    {
      hide *;
      FromValid();
      Parts();
      if root == null {
        return;
      }
      if lastSplayedKeyP && lastSplayedKey == key {
        return;
      }
      maxDepth := MAX_DEPTH;
      rebalanceP, depth := false, 0;
      ghost var s, q := NodeSet(tree), InOrder(tree);
      AtRoot(s);
      var top := SplayHelper(key, RootLink, NoLink, NoLink, Focus(Top, tree), s);
      if rebalanceP {
        DeepTreesAreLarge(tree, key);
        FromParts();
        Rebalance();
        rebalanceP, depth := false, 0;
        Parts();
        AtRoot(s);
        BalancedIsShallow(q, key);
        top := SplayHelper(key, RootLink, NoLink, NoLink, Focus(Top, tree), s);
        if rebalanceP {
          assert false; // abort ()
        }
      }
      SplayIsSound(tree, key);
      ghost var r := Splayed(Top, tree, key);
      MembersAreNodeSet(tree);
      MembersAreNodeSet(r.tree);
      tree := r.tree;
      lastSplayedKey := key;
      lastSplayedKeyP := true;
      HoldsAtRoot(s, r);
      FromParts();
      ToValid();
    }

    lemma FromValid()
      requires Valid()
      ensures Structure() && (lastSplayedKeyP ==> tree.Bin? && Nearest(InOrder(tree), tree.node, lastSplayedKey))
    {
    }

    lemma ToValid()
      requires Structure() && (lastSplayedKeyP ==> tree.Bin? && Nearest(InOrder(tree), tree.node, lastSplayedKey))
      ensures Valid()
    {
    }

    lemma AtRoot(s: set<Node>)
      requires Linked(LinksOf(s), root, tree)
      ensures LinkTo(Top) == RootLink && Owner(RootLink) == {} && Depth(Top) == 0 && Plug(Top, tree) == tree
      ensures Holds(s, Focus(Top, tree), Read(RootLink))
    {
    }

    lemma HoldsAtRoot(s: set<Node>, f: Focus)
      requires f.context == Top && f.tree.Bin? && Holds(s, f, f.tree.node)
      ensures Linked(LinksOf(s), root, f.tree) && root == f.tree.node
    {
    }

    static lemma DeepTreesAreLarge(t: Tree, key: Key)
      requires TooDeep(t, key, 0, MAX_DEPTH)
      ensures |InOrder(t)| > 2
    {
      if Height(t) <= MAX_DEPTH + 1 {
        ShallowIsNotTooDeep(t, key, 0, MAX_DEPTH);
      }
      HeightAtMostSize(t);
    }

    static lemma {:induction false} HeightAtMostSize(t: Tree)
      ensures Height(t) <= |InOrder(t)|
    {
      if t.Bin? {
        HeightAtMostSize(t.left);
        HeightAtMostSize(t.right);
      }
    }

    lemma Parts()
      requires Structure()
      ensures Linked(LinksOf(NodeSet(tree)), root, tree) && Sorted(InOrder(tree)) && numKeys == |InOrder(tree)| <= UINT_MAX
      ensures tree.Nil? <==> root == null
      ensures tree.Nil? <==> numKeys == 0
      ensures tree.Bin? ==> root == tree.node
    {
    }

    lemma FromParts()
      requires Linked(LinksOf(NodeSet(tree)), root, tree) && Sorted(InOrder(tree)) && numKeys == |InOrder(tree)| <= UINT_MAX
      ensures Structure()
    {
    }

    constructor ()
      ensures Valid() && Contents() == map[] && fresh(this)
    {
      root, lastSplayedKeyP, numKeys := null, false, 0;
      lastSplayedKey, maxDepth, depth, rebalanceP := 0, 0, 0, false;
      tree := Nil;
    }

    /** Contents is the map with exactly the entries of the tree's nodes. */
    lemma ContentsIs(m: map<Key, Address>, s: set<Node>)
      requires Structure() && s == NodeSet(tree)
      requires forall x :: x in s ==> x.key in m && m[x.key] == x.value
      requires forall k :: k in m ==> exists x :: x in s && x.key == k
      ensures Contents() == m
    {
    }

    lemma TheNodes() returns (s: set<Node>)
      ensures s == NodeSet(tree)
    {
      s := NodeSet(tree);
    }

    /** The entries of Contents, one for each node. */
    lemma Entries(s: set<Node>)
      requires Structure() && s == NodeSet(tree)
      ensures forall x :: x in s ==> x.key in Contents() && Contents()[x.key] == x.value
      ensures forall k :: k in Contents() ==> exists x :: x in s && x.key == k
    {
      UniqueKeys(tree);
    }

    /** The node with the given key, or null if there is none. */
    method Lookup(key: Key) returns (n: Node?)
      requires Valid()
      modifies this, NodeSet(tree)`left, NodeSet(tree)`right
      ensures Valid() && Contents() == old(Contents()) && NodeSet(tree) == old(NodeSet(tree))
      ensures InOrder(tree) == old(InOrder(tree)) && (tree.Bin? ==> lastSplayedKeyP && lastSplayedKey == key)
      ensures n != null <==> key in Contents()
      ensures n != null ==> n == root && n in NodeSet(tree) && n.key == key && n.value == Contents()[key]
    {
      hide *;
      SplayFor(key);
      RootDecides(key);
      if root != null && root.key == key {
        n := root;
      } else {
        n := null;
      }
    }

    /** Splaying changes the tree but not the map. */
    method SplayFor(key: Key)
      requires Valid()
      modifies this, NodeSet(tree)`left, NodeSet(tree)`right
      ensures Valid() && Structure() && Contents() == old(Contents())
      ensures InOrder(tree) == old(InOrder(tree)) && NodeSet(tree) == old(NodeSet(tree)) && numKeys == old(numKeys)
      ensures tree.Nil? <==> root == null
      ensures tree.Bin? ==> lastSplayedKeyP && lastSplayedKey == key && root == tree.node
    {
      hide *;
      FromValid();
      ghost var s := TheNodes();
      ghost var m := Contents();
      Entries(s);
      Splay(key);
      FromValid();
      ContentsIs(m, s);
    }

    /** After splaying around key, the root alone decides whether key is present. */
    lemma RootDecides(key: Key)
      requires Valid() && Structure()
      requires tree.Bin? ==> lastSplayedKeyP && lastSplayedKey == key
      ensures root != null && root.key == key <==> key in Contents()
      ensures root != null ==> root in NodeSet(tree) && Contents()[root.key] == root.value
    {
      Entries(NodeSet(tree));
      MembersAreNodeSet(tree);
    }

    /** Associate key with value; the node that carries the key is left at the root. */
    method Insert(key: Key, value: Address) returns (r: Node)
      requires Valid() && (key !in Contents() ==> numKeys < UINT_MAX)
      modifies this, NodeSet(tree)
      ensures Valid() && Contents() == old(Contents())[key := value]
      ensures r == root && r in NodeSet(tree) && r.key == key && r.value == value
      ensures lastSplayedKeyP <==> key in old(Contents())
      ensures forall x :: x in NodeSet(tree) ==> x in old(NodeSet(tree)) || fresh(x)
      ensures numKeys == old(numKeys) + if key in old(Contents()) then 0 else 1
    {
      hide *;
      SplayFor(key);
      ghost var s := TheNodes();
      ghost var m, t := Contents(), tree;
      Entries(s);
      RootDecides(key);
      FromValid();
      Parts();
      if root != null && root.key == key {
        UniqueKeys(tree);
        SetValue(root, value, s);
        r := root;
        FromParts();
        ToValid();
        NewEntry(m, s, s, r, key, value);
      } else {
        r := new Node(key, value);
        numKeys := numKeys + 1;
        LinkOnTop(r, t, s);
        root := r;
        lastSplayedKeyP := false;
        tree := InsertRoot(t, r);
        InsertRootSound(t, r);
        FromParts();
        ToValid();
        NewEntry(m, s, s + {r}, r, key, value);
      }
    }

    /** Remove key, if it is there. */
    method Remove(key: Key)
      requires Valid()
      modifies this, NodeSet(tree)`left, NodeSet(tree)`right
      ensures Valid() && Contents() == old(Contents()) - {key}
      ensures NodeSet(tree) <= old(NodeSet(tree)) && !lastSplayedKeyP
      ensures numKeys == old(numKeys) - if key in old(Contents()) then 1 else 0
    {
      hide *;
      SplayFor(key);
      ghost var s := TheNodes();
      ghost var m, t := Contents(), tree;
      Entries(s);
      RootDecides(key);
      FromValid();
      Parts();
      lastSplayedKeyP := false;
      if root != null && root.key == key {
        UniqueKeys(tree);
        var newRoot := UnlinkRoot(root, t, s);
        root := newRoot;
        numKeys := numKeys - 1;
        tree := RemoveRoot(t);
        RemoveRootSound(t);
        FromParts();
        ToValid();
        EntryGone(m, s, t.node);
      } else {
        FromParts();
        ToValid();
        EntryAbsent(m, s, key);
      }
    }

    /** Promote one child of the old root and hang the other off its right-most node. */
    static method UnlinkRoot(x: Node, ghost t: Tree, ghost s: set<Node>) returns (n: Node?)
      requires t.Bin? && x == t.node && s == NodeSet(t) && Linked(LinksOf(s), x, t) && Sorted(InOrder(t))
      modifies s`right
      ensures Linked(LinksOf(NodeSet(RemoveRoot(t))), n, RemoveRoot(t))
    {
      ghost var m := LinksOf(s);
      SortedIsApart(t);
      RemoveRootSound(t);
      var left, right := x.left, x.right;
      assert Linked(m, left, t.left) && Linked(m, right, t.right);
      if left != null {
        n := left;
        if right != null {
          var last := WalkRight(left, t.left, s);
          RightmostInSet(t.left);
          last.right := right;
          LinkedFrame(m, LinksOf(s), right, t.right);
          JoinLinked(m, LinksOf(s), left, t.left, right, t.right);
        } else {
          JoinNil(t.left);
        }
      } else {
        n := right;
      }
      assert Linked(LinksOf(s), n, RemoveRoot(t));
      LinkedFrame(LinksOf(s), LinksOf(NodeSet(RemoveRoot(t))), n, RemoveRoot(t));
    }

    lemma EntryGone(m: map<Key, Address>, was: set<Node>, r: Node)
      requires Structure() && NodeSet(tree) == was - {r} && r in was
      requires forall x :: x in was ==> x.key in m && m[x.key] == x.value
      requires forall x :: x in was && x.key == r.key ==> x == r
      requires forall k :: k in m ==> exists x :: x in was && x.key == k
      ensures Contents() == m - {r.key}
    {
      ContentsIs(m - {r.key}, was - {r});
    }

    lemma EntryAbsent(m: map<Key, Address>, s: set<Node>, key: Key)
      requires Structure() && s == NodeSet(tree) && key !in m
      requires forall x :: x in s ==> x.key in m && m[x.key] == x.value
      requires forall k :: k in m ==> exists x :: x in s && x.key == k
      ensures Contents() == m - {key}
    {
      ContentsIs(m, s);
    }

    static method SetValue(n: Node, value: Address, ghost s: set<Node>)
      requires n in s
      modifies n`value
      ensures n.value == value && LinksOf(s) == old(LinksOf(s))
    {
      n.value := value;
    }

    /** Hang the old root and one of its subtrees below the new node. */
    method LinkOnTop(node: Node, ghost t: Tree, ghost s: set<Node>)
      requires s == NodeSet(t) && node !in s && Linked(LinksOf(s), root, t) && Sorted(InOrder(t))
      requires node.left == node.right == null
      modifies node`left, node`right, s`left, s`right
      ensures Linked(LinksOf(s + {node}), node, InsertRoot(t, node))
    {
      ghost var m := LinksOf(s);
      SortedIsApart(t);
      if root == null {
      } else if root.key < node.key {
        node.left := root;
        node.right := node.left.right;
        node.left.right := null;
      } else {
        node.right := root;
        node.left := node.right.left;
        node.right.left := null;
      }
      InsertRootLinked(m, LinksOf(s + {node}), root, t, node);
    }

    /** One entry of the map has been set, at a node that now carries it. */
    lemma NewEntry(m: map<Key, Address>, was: set<Node>, s: set<Node>, r: Node, key: Key, value: Address)
      requires Structure() && s == NodeSet(tree) && s == was + {r} && r.key == key && r.value == value
      requires forall x :: x in was && x != r ==> x.key in m && m[x.key] == x.value
      requires forall x :: x in was && x.key == key ==> x == r
      requires forall k :: k in m ==> exists x :: x in was && x.key == k
      ensures Contents() == m[key := value]
    {
      ContentsIs(m[key := value], s);
    }

    /** The node with the greatest key below the given one, or null if there is none. */
    method Predecessor(key: Key) returns (n: Node?)
      requires Valid()
      modifies this, NodeSet(tree)`left, NodeSet(tree)`right
      ensures Valid() && Contents() == old(Contents()) && NodeSet(tree) == old(NodeSet(tree))
      ensures n != null ==> IsPredecessor(InOrder(tree), n, key)
      ensures n == null ==> forall y :: y in InOrder(tree) ==> y.key >= key
      ensures InOrder(tree) == old(InOrder(tree)) && (tree.Bin? ==> lastSplayedKeyP && lastSplayedKey == key)
    {
      hide *;
      FromValid();
      Parts();
      if root == null {
        EmptyOrder();
        return null;
      }
      SplayFor(key);
      FromValid();
      Parts();
      PredecessorFromRoot(tree, key);
      if root.key < key {
        return root;
      }
      n := root.left;
      ghost var u := LeftOfRoot();
      if n != null {
        ghost var s := TheNodes();
        n := WalkRight(n, u, s);
      }
    }

    /** The node with the least key above the given one, or null if there is none. */
    method Successor(key: Key) returns (n: Node?)
      requires Valid()
      modifies this, NodeSet(tree)`left, NodeSet(tree)`right
      ensures Valid() && Contents() == old(Contents()) && NodeSet(tree) == old(NodeSet(tree))
      ensures n != null ==> IsSuccessor(InOrder(tree), n, key)
      ensures n == null ==> forall y :: y in InOrder(tree) ==> y.key <= key
      ensures InOrder(tree) == old(InOrder(tree)) && (tree.Bin? ==> lastSplayedKeyP && lastSplayedKey == key)
    {
      hide *;
      FromValid();
      Parts();
      if root == null {
        EmptyOrder();
        return null;
      }
      SplayFor(key);
      FromValid();
      Parts();
      SuccessorFromRoot(tree, key);
      if root.key > key {
        return root;
      }
      n := root.right;
      ghost var u := RightOfRoot();
      if n != null {
        ghost var s := TheNodes();
        n := WalkLeft(n, u, s);
      }
    }

    /** Follow right links to the end. */
    static method WalkRight(start: Node, ghost t: Tree, ghost s: set<Node>) returns (n: Node)
      requires t.Bin? && start in s && Linked(LinksOf(s), start, t)
      ensures n == Rightmost(t)
    {
      n := start;
      ghost var u := t;
      while n.right != null
        invariant u.Bin? && n in s && Linked(LinksOf(s), n, u) && Rightmost(u) == Rightmost(t)
        decreases u
      {
        assert Linked(LinksOf(s), n.right, u.right);
        u := u.right;
        n := n.right;
      }
      assert Linked(LinksOf(s), n.right, u.right);
    }

    /** Follow left links to the end. */
    static method WalkLeft(start: Node, ghost t: Tree, ghost s: set<Node>) returns (n: Node)
      requires t.Bin? && start in s && Linked(LinksOf(s), start, t)
      ensures n == Leftmost(t)
    {
      n := start;
      ghost var u := t;
      while n.left != null
        invariant u.Bin? && n in s && Linked(LinksOf(s), n, u) && Leftmost(u) == Leftmost(t)
        decreases u
      {
        assert Linked(LinksOf(s), n.left, u.left);
        u := u.left;
        n := n.left;
      }
      assert Linked(LinksOf(s), n.left, u.left);
    }

    lemma EmptyOrder()
      requires tree.Nil?
      ensures InOrder(tree) == []
    {
    }

    lemma LeftOfRoot() returns (u: Tree)
      requires Structure() && tree.Bin? && root == tree.node
      ensures u == tree.left && (u.Nil? <==> root.left == null)
      ensures u.Bin? ==> root.left in NodeSet(tree) && Linked(LinksOf(NodeSet(tree)), root.left, u)
    {
      u := tree.left;
      assert Linked(LinksOf(NodeSet(tree)), root.left, u);
    }

    lemma RightOfRoot() returns (u: Tree)
      requires Structure() && tree.Bin? && root == tree.node
      ensures u == tree.right && (u.Nil? <==> root.right == null)
      ensures u.Bin? ==> root.right in NodeSet(tree) && Linked(LinksOf(NodeSet(tree)), root.right, u)
    {
      u := tree.right;
      assert Linked(LinksOf(NodeSet(tree)), root.right, u);
    }
  }
}
