/** The shapes a splay tree goes through (bounds-splay-tree.c), as values: trees of nodes,
    one-hole contexts, and what splaying, relinking and joining do to them. */
module SplayShape {
  import opened Powers

  type Key = nat
  type Address = nat

  /** A node; its key never changes after it is created. */
  class Node {
    const key: Key
    var value: Address
    var left: Node?
    var right: Node?

    constructor (key: Key, value: Address)
      ensures this.key == key && this.value == value && left == null && right == null
    {
      this.key := key;
      this.value := value;
      left := null;
      right := null;
    }
  }

  datatype Tree = Nil | Bin(left: Tree, node: Node, right: Tree)

  /** The path from the root to a link, innermost step first, with the subtrees left behind. */
  datatype Context =
    | Top
    | InLeft(up: Context, node: Node, right: Tree)
    | InRight(up: Context, left: Tree, node: Node)

  /** A subtree and the link it hangs from. */
  datatype Focus = Focus(context: Context, tree: Tree)

  // ----- In-order sequences ---------------------------------------------------------------------

  function InOrder(t: Tree): seq<Node> {
    match t
    case Nil => []
    case Bin(l, x, r) => InOrder(l) + [x] + InOrder(r)
  }

  function Size(t: Tree): nat {
    |InOrder(t)|
  }

  function Plug(c: Context, t: Tree): Tree {
    match c
    case Top => t
    case InLeft(up, x, r) => Plug(up, Bin(t, x, r))
    case InRight(up, l, x) => Plug(up, Bin(l, x, t))
  }

  /** The nodes before the hole of c, in order. */
  function Before(c: Context): seq<Node> {
    match c
    case Top => []
    case InLeft(up, x, r) => Before(up)
    case InRight(up, l, x) => Before(up) + InOrder(l) + [x]
  }

  /** The nodes after the hole of c, in order. */
  function After(c: Context): seq<Node> {
    match c
    case Top => []
    case InLeft(up, x, r) => [x] + InOrder(r) + After(up)
    case InRight(up, l, x) => After(up)
  }

  function Depth(c: Context): nat {
    if c.Top? then 0 else 1 + Depth(c.up)
  }

  function Height(t: Tree): nat {
    match t
    case Nil => 0
    case Bin(l, _, r) => 1 + if Height(l) < Height(r) then Height(r) else Height(l)
  }

  lemma {:induction false} InOrderPlug(c: Context, t: Tree)
    ensures InOrder(Plug(c, t)) == Before(c) + InOrder(t) + After(c)
  {
    match c
    case Top =>
    case InLeft(up, x, r) =>
      InOrderPlug(up, Bin(t, x, r));
    case InRight(up, l, x) =>
      InOrderPlug(up, Bin(l, x, t));
  }

  /** The depth of a link is less than the number of nodes, counting the node below it. */
  lemma {:induction false} DepthBelowSize(c: Context)
    ensures Depth(c) <= |Before(c)| + |After(c)|
  {
    if !c.Top? {
      DepthBelowSize(c.up);
    }
  }

  ghost predicate Sorted(s: seq<Node>) {
    forall i, j :: 0 <= i < j < |s| ==> s[i].key < s[j].key
  }

  ghost predicate Distinct(s: seq<Node>) {
    forall i, j :: 0 <= i < j < |s| ==> s[i] != s[j]
  }

  lemma SortedIsDistinct(s: seq<Node>)
    requires Sorted(s)
    ensures Distinct(s)
  {
  }

  lemma SortedParts(a: seq<Node>, b: seq<Node>)
    requires Sorted(a + b)
    ensures Sorted(a) && Sorted(b)
    ensures forall x, y :: x in a && y in b ==> x.key < y.key
  {
    var s := a + b;
    assert forall i :: 0 <= i < |a| ==> s[i] == a[i];
    assert forall i :: 0 <= i < |b| ==> s[|a| + i] == b[i];
  }

  // ----- Searching --------------------------------------------------------------------------------

  /** Where the search for key below the link of c ends: at the node with that key, or at the
      last node before the search falls off the tree. */
  function Locate(c: Context, t: Tree, key: Key): (f: Focus)
    ensures t.Bin? || !c.Top? ==> f.tree.Bin?
    decreases t
  {
    match t
    case Nil => (
      match c
      case Top => Focus(Top, Nil)
      case InLeft(up, x, r) => Focus(up, Bin(Nil, x, r))
      case InRight(up, l, x) => Focus(up, Bin(l, x, Nil)))
    case Bin(l, x, r) =>
      if key == x.key then Focus(c, t)
      else if key < x.key then Locate(InLeft(c, x, r), l, key)
      else Locate(InRight(c, l, x), r, key)
  }

  /** The search would have to look below a node that is already deeper than max. */
  predicate TooDeep(t: Tree, key: Key, depth: nat, max: nat) {
    match t
    case Nil => false
    case Bin(l, x, r) =>
      key != x.key && (depth > max || TooDeep(if key < x.key then l else r, key, depth + 1, max))
  }

  lemma {:induction false} ShallowIsNotTooDeep(t: Tree, key: Key, depth: nat, max: nat)
    requires depth + Height(t) <= max + 1
    ensures !TooDeep(t, key, depth, max)
  {
    match t
    case Nil =>
    case Bin(l, x, r) =>
      if key < x.key {
        ShallowIsNotTooDeep(l, key, depth + 1, max);
      } else if key > x.key {
        ShallowIsNotTooDeep(r, key, depth + 1, max);
      }
  }

  lemma {:induction false} LocateKeepsPlug(c: Context, t: Tree, key: Key)
    requires t.Bin? || !c.Top?
    ensures var f := Locate(c, t, key); Plug(f.context, f.tree) == Plug(c, t)
    decreases t
  {
    match t
    case Nil =>
    case Bin(l, x, r) =>
      if key < x.key {
        LocateKeepsPlug(InLeft(c, x, r), l, key);
      } else if key > x.key {
        LocateKeepsPlug(InRight(c, l, x), r, key);
      }
  }

  /** x carries key, or key is absent from s and x is its immediate predecessor or successor. */
  ghost predicate Nearest(s: seq<Node>, x: Node, key: Key) {
    && x in s
    && (x.key < key ==> forall y :: y in s ==> y.key <= x.key || key < y.key)
    && (x.key > key ==> forall y :: y in s ==> y.key < key || x.key <= y.key)
  }

  /** Everything the search left behind on either side is on the right side of key. */
  ghost predicate Brackets(c: Context, key: Key) {
    (forall y :: y in Before(c) ==> y.key < key) && (forall y :: y in After(c) ==> key < y.key)
  }

  lemma {:induction false} LocateFindsNearest(c: Context, t: Tree, key: Key)
    requires t.Bin? || !c.Top?
    requires Sorted(InOrder(Plug(c, t))) && Brackets(c, key)
    ensures Nearest(InOrder(Plug(c, t)), Locate(c, t, key).tree.node, key)
    decreases t
  {
    match t
    case Nil => FellOff(c, key);
    case Bin(l, x, r) =>
      SortedAround(c, l, x, r);
      if key < x.key {
        assert After(InLeft(c, x, r)) == [x] + InOrder(r) + After(c);
        forall y | y in After(InLeft(c, x, r))
          ensures key < y.key
        {
          assert y == x || y in InOrder(r) || y in After(c);
        }
        LocateFindsNearest(InLeft(c, x, r), l, key);
      } else if key > x.key {
        assert Before(InRight(c, l, x)) == Before(c) + InOrder(l) + [x];
        forall y | y in Before(InRight(c, l, x))
          ensures y.key < key
        {
          assert y == x || y in InOrder(l) || y in Before(c);
        }
        LocateFindsNearest(InRight(c, l, x), r, key);
      } else {
        InOrderPlug(c, t);
      }
  }

  /** Where the search falls off, the last node seen is the neighbour of the missing key. */
  lemma FellOff(c: Context, key: Key)
    requires !c.Top? && Sorted(InOrder(Plug(c, Nil))) && Brackets(c, key)
    ensures Nearest(InOrder(Plug(c, Nil)), c.node, key)
  {
    hide Nearest, Sorted;
    var a, b := Before(c), After(c);
    assert InOrder(Plug(c, Nil)) == a + b by {
      InOrderPlug(c, Nil);
      assert a + [] + b == a + b;
    }
    if c.InLeft? {
      SortedAround(c.up, Nil, c.node, c.right);
      LeastFirst(c.node, InOrder(c.right), After(c.up));
      assert b == [c.node] + InOrder(c.right) + After(c.up);
    } else {
      SortedAround(c.up, c.left, c.node, Nil);
      GreatestLast(Before(c.up), InOrder(c.left), c.node);
      assert a == Before(c.up) + InOrder(c.left) + [c.node];
    }
    NearestAtSeam(a, b, c.node, key);
  }

  lemma LeastFirst(x: Node, a: seq<Node>, b: seq<Node>)
    requires (forall y :: y in a ==> x.key < y.key) && (forall y :: y in b ==> x.key < y.key)
    ensures x in [x] + a + b
    ensures forall y :: y in [x] + a + b ==> x.key <= y.key
  {
  }

  lemma GreatestLast(a: seq<Node>, b: seq<Node>, x: Node)
    requires (forall y :: y in a ==> y.key < x.key) && (forall y :: y in b ==> y.key < x.key)
    ensures x in a + b + [x]
    ensures forall y :: y in a + b + [x] ==> y.key <= x.key
  {
  }

  lemma NearestAtSeam(a: seq<Node>, b: seq<Node>, x: Node, key: Key)
    requires (forall y :: y in a ==> y.key < key) && (forall y :: y in b ==> key < y.key)
    requires (x in a && forall y :: y in a ==> y.key <= x.key) || (x in b && forall y :: y in b ==> x.key <= y.key)
    ensures Nearest(a + b, x, key)
  {
  }

  lemma SortedAround(c: Context, l: Tree, x: Node, r: Tree)
    requires Sorted(InOrder(Plug(c, Bin(l, x, r))))
    ensures forall y :: y in Before(c) ==> y.key < x.key
    ensures forall y :: y in InOrder(l) ==> y.key < x.key
    ensures forall y :: y in InOrder(r) ==> x.key < y.key
    ensures forall y :: y in After(c) ==> x.key < y.key
  {
    InOrderPlug(c, Bin(l, x, r));
    SortedSides(Before(c), InOrder(l), x, InOrder(r), After(c));
  }

  lemma SortedSides(a: seq<Node>, b: seq<Node>, x: Node, c: seq<Node>, d: seq<Node>)
    requires Sorted(a + (b + [x] + c) + d)
    ensures forall y :: y in a ==> y.key < x.key
    ensures forall y :: y in b ==> y.key < x.key
    ensures forall y :: y in c ==> x.key < y.key
    ensures forall y :: y in d ==> x.key < y.key
  {
    SortedParts(a + (b + [x] + c), d);
    SortedParts(a, b + [x] + c);
    SortedParts(b + [x], c);
    SortedParts(b, [x]);
    assert x in [x];
    assert x in b + [x];
    assert x in b + [x] + c;
    assert x in a + (b + [x] + c);
  }

  // ----- Splaying ---------------------------------------------------------------------------------

  /** One rotation, for a node whose parent is the root. */
  function Zig(f: Focus): Focus
    requires f.tree.Bin? && !f.context.Top? && f.context.up.Top?
  {
    var Bin(a, n, b) := f.tree;
    match f.context
    case InLeft(up, p, c) => Focus(up, Bin(a, n, Bin(b, p, c)))
    case InRight(up, c, p) => Focus(up, Bin(Bin(c, p, a), n, b))
  }

  /** Two rotations, past the parent and the grandparent. */
  function ZigZig(f: Focus): Focus
    requires f.tree.Bin? && !f.context.Top? && !f.context.up.Top?
  {
    var Bin(b, n, c) := f.tree;
    match f.context
    case InLeft(InLeft(up, g, e), p, d) => Focus(up, Bin(b, n, Bin(c, p, Bin(d, g, e))))
    case InRight(InRight(up, e, g), d, p) => Focus(up, Bin(Bin(Bin(e, g, d), p, b), n, c))
    case InLeft(InRight(up, a, g), p, d) => Focus(up, Bin(Bin(a, g, b), n, Bin(c, p, d)))
    case InRight(InLeft(up, g, d), a, p) => Focus(up, Bin(Bin(a, p, b), n, Bin(c, g, d)))
  }

  function Rotate(f: Focus): (r: Focus)
    requires f.tree.Bin? && !f.context.Top?
    ensures r.tree.Bin? && r.tree.node == f.tree.node
    ensures r.context == f.context.up || (!f.context.up.Top? && r.context == f.context.up.up)
    ensures Depth(r.context) < Depth(f.context)
  {
    assert Depth(f.context) == 1 + Depth(f.context.up);
    if f.context.up.Top? then Zig(f) else ZigZig(f)
  }

  /** Rotating changes neither the node in focus nor the in-order sequence. */
  lemma RotateKeepsOrder(f: Focus)
    requires f.tree.Bin? && !f.context.Top?
    ensures var r := Rotate(f); InOrder(Plug(r.context, r.tree)) == InOrder(Plug(f.context, f.tree))
  {
    var r, c := Rotate(f), f.context;
    InOrderPlug(c, f.tree);
    InOrderPlug(r.context, r.tree);
    if c.up.Top? {
      ZigOrder(f);
    } else {
      ZigZigOrder(f);
    }
  }

  lemma ZigOrder(f: Focus)
    requires f.tree.Bin? && !f.context.Top? && f.context.up.Top?
    ensures Before(f.context) + InOrder(f.tree) + After(f.context) == InOrder(Zig(f).tree)
  {
  }

  lemma ZigZigOrder(f: Focus)
    requires f.tree.Bin? && !f.context.Top? && !f.context.up.Top?
    ensures var r := ZigZig(f);
            Before(f.context) + InOrder(f.tree) + After(f.context) == Before(r.context) + InOrder(r.tree) + After(r.context)
  {
    var Bin(b, n, c) := f.tree;
    match f.context
    case InLeft(InLeft(up, g, e), p, d) => LeftLeftOrder(up, b, n, c, p, d, g, e);
    case InRight(InRight(up, e, g), d, p) => RightRightOrder(up, e, g, d, p, b, n, c);
    case InLeft(InRight(up, a, g), p, d) => InnerOrder(Before(up), a, g, b, n, c, p, d, After(up));
    case InRight(InLeft(up, g, d), a, p) => InnerOrder(Before(up), a, p, b, n, c, g, d, After(up));
  }

  lemma LeftLeftOrder(up: Context, b: Tree, n: Node, c: Tree, p: Node, d: Tree, g: Node, e: Tree)
    ensures var c0 := InLeft(InLeft(up, g, e), p, d);
            Before(c0) + InOrder(Bin(b, n, c)) + After(c0)
            == Before(up) + InOrder(Bin(b, n, Bin(c, p, Bin(d, g, e)))) + After(up)
  {
    NestRight(Before(up), InOrder(b), [n], InOrder(c), [p], InOrder(d), [g], InOrder(e), After(up));
    assert InOrder(Bin(c, p, Bin(d, g, e))) == InOrder(c) + [p] + (InOrder(d) + [g] + InOrder(e));
    assert After(InLeft(InLeft(up, g, e), p, d)) == [p] + InOrder(d) + ([g] + InOrder(e) + After(up));
  }

  lemma NestRight<T>(s: seq<T>, b: seq<T>, n: seq<T>, c: seq<T>, p: seq<T>, d: seq<T>, g: seq<T>, e: seq<T>, s': seq<T>)
    ensures s + (b + n + c) + (p + d + (g + e + s')) == s + (b + n + (c + p + (d + g + e))) + s'
  {
  }

  lemma RightRightOrder(up: Context, e: Tree, g: Node, d: Tree, p: Node, b: Tree, n: Node, c: Tree)
    ensures var c0 := InRight(InRight(up, e, g), d, p);
            Before(c0) + InOrder(Bin(b, n, c)) + After(c0)
            == Before(up) + InOrder(Bin(Bin(Bin(e, g, d), p, b), n, c)) + After(up)
  {
    NestLeft(Before(up), InOrder(e), [g], InOrder(d), [p], InOrder(b), [n], InOrder(c), After(up));
    assert InOrder(Bin(Bin(e, g, d), p, b)) == (InOrder(e) + [g] + InOrder(d)) + [p] + InOrder(b);
    assert Before(InRight(InRight(up, e, g), d, p)) == (Before(up) + InOrder(e) + [g]) + InOrder(d) + [p];
  }

  lemma NestLeft<T>(s: seq<T>, e: seq<T>, g: seq<T>, d: seq<T>, p: seq<T>, b: seq<T>, n: seq<T>, c: seq<T>, s': seq<T>)
    ensures ((s + e + g) + d + p) + (b + n + c) + s' == s + (((e + g + d) + p + b) + n + c) + s'
  {
  }

  lemma InnerOrder(s: seq<Node>, a: Tree, x: Node, b: Tree, n: Node, c: Tree, y: Node, d: Tree, s': seq<Node>)
    ensures (s + InOrder(a) + [x]) + InOrder(Bin(b, n, c)) + ([y] + InOrder(d) + s')
         == s + InOrder(Bin(Bin(a, x, b), n, Bin(c, y, d))) + s'
  {
    NestBoth(s, InOrder(a), [x], InOrder(b), [n], InOrder(c), [y], InOrder(d), s');
    assert InOrder(Bin(Bin(a, x, b), n, Bin(c, y, d)))
        == (InOrder(a) + [x] + InOrder(b)) + [n] + (InOrder(c) + [y] + InOrder(d));
  }

  lemma NestBoth<T>(s: seq<T>, a: seq<T>, x: seq<T>, b: seq<T>, n: seq<T>, c: seq<T>, y: seq<T>, d: seq<T>, s': seq<T>)
    ensures (s + a + x) + (b + n + c) + (y + d + s') == s + ((a + x + b) + n + (c + y + d)) + s'
  {
  }

  /** Rotate the focus up until it is at the root or above the given level. */
  function Climb(f: Focus, level: nat): Focus
    requires f.tree.Bin?
    ensures Climb(f, level).tree.Bin?
    decreases Depth(f.context)
  {
    if f.context.Top? || Depth(f.context) < level then f
    else Climb(Rotate(f), level)
  }

  lemma {:induction false} ClimbKeepsOrder(f: Focus, level: nat)
    requires f.tree.Bin?
    ensures var r := Climb(f, level);
            r.tree.node == f.tree.node && InOrder(Plug(r.context, r.tree)) == InOrder(Plug(f.context, f.tree))
    ensures var r := Climb(f, level); r.context.Top? || Depth(r.context) < level
    decreases Depth(f.context)
  {
    if !(f.context.Top? || Depth(f.context) < level) {
      RotateKeepsOrder(f);
      ClimbKeepsOrder(Rotate(f), level);
    }
  }

  /** The bottom-up splay: what the recursion of the C code comes to, level by level. */
  lemma {:induction false} ClimbOneLevel(f: Focus, level: nat)
    requires f.tree.Bin?
    ensures var g := Climb(f, level + 1);
            Climb(f, level) == if Depth(g.context) == level && level > 0 then Rotate(g) else g
    decreases Depth(f.context)
  {
    if !f.context.Top? && Depth(f.context) > level {
      ClimbOneLevel(Rotate(f), level);
    } else if Depth(f.context) == level && level > 0 {
      assert Climb(f, level) == Climb(Rotate(f), level);
    }
  }

  /** c is reached from d by moving up. */
  predicate IsAncestor(c: Context, d: Context) {
    c == d || (!d.Top? && IsAncestor(c, d.up))
  }

  lemma {:induction false} AncestorTransitive(a: Context, b: Context, d: Context)
    requires IsAncestor(a, b) && IsAncestor(b, d)
    ensures IsAncestor(a, d)
    decreases d
  {
    if b != d {
      AncestorTransitive(a, b, d.up);
    }
  }

  lemma {:induction false} AncestorDepth(a: Context, d: Context)
    requires IsAncestor(a, d)
    ensures Depth(a) <= Depth(d)
    ensures Depth(a) == Depth(d) ==> a == d
    decreases d
  {
    if a != d {
      AncestorDepth(a, d.up);
    }
  }

  /** A context has one ancestor at each depth. */
  lemma {:induction false} AncestorUnique(a: Context, b: Context, d: Context)
    requires IsAncestor(a, d) && IsAncestor(b, d) && Depth(a) == Depth(b)
    ensures a == b
    decreases d
  {
    AncestorDepth(a, d);
    AncestorDepth(b, d);
    if a != d {
      AncestorUnique(a, b, d.up);
    }
  }

  lemma {:induction false} ClimbToAncestor(f: Focus, level: nat)
    requires f.tree.Bin? && Depth(f.context) + 2 >= level
    ensures IsAncestor(Climb(f, level).context, f.context)
    ensures Depth(Climb(f, level).context) + 2 >= level
    decreases Depth(f.context)
  {
    if !(f.context.Top? || Depth(f.context) < level) {
      var r := Rotate(f);
      ClimbToAncestor(r, level);
      assert IsAncestor(f.context.up, f.context);
      if r.context != f.context.up {
        assert IsAncestor(f.context.up.up, f.context.up);
        AncestorTransitive(f.context.up.up, f.context.up, f.context);
      }
      AncestorTransitive(Climb(f, level).context, r.context, f.context);
    }
  }

  lemma {:induction false} LocateBelow(c: Context, t: Tree, key: Key)
    requires t.Bin? || !c.Top?
    ensures IsAncestor(if t.Bin? then c else c.up, Locate(c, t, key).context)
    decreases t
  {
    if t.Bin? && key != t.node.key {
      var child := if key < t.node.key then InLeft(c, t.node, t.right) else InRight(c, t.left, t.node);
      var sub := if key < t.node.key then t.left else t.right;
      LocateBelow(child, sub, key);
      if sub.Bin? {
        assert IsAncestor(c, child);
        AncestorTransitive(c, child, Locate(child, sub, key).context);
      }
    }
  }

  /** What one call of the helper at the link of c makes of the tree: the located node has been
      rotated past every level down to this one. */
  function Splayed(c: Context, t: Tree, key: Key): Focus
    requires t.Bin? || !c.Top?
    ensures Splayed(c, t, key).tree.Bin?
  {
    Climb(Locate(c, t, key), Depth(c))
  }

  /** After the call the located node hangs from the link of c itself (only if it is the root),
      or from the parent's or the grandparent's link. */
  lemma SplayedNear(c: Context, t: Tree, key: Key)
    requires t.Bin? || !c.Top?
    ensures var f := Splayed(c, t, key);
            && (c.Top? ==> f.context == Top)
            && (!c.Top? ==> f.context == c.up || (!c.up.Top? && f.context == c.up.up))
  {
    LocateBelow(c, t, key);
    var l := Locate(c, t, key);
    var f := Climb(l, Depth(c));
    if !c.Top? {
      assert IsAncestor(c.up, l.context) by {
        assert IsAncestor(c.up, c);
        if t.Bin? {
          AncestorTransitive(c.up, c, l.context);
        }
      }
      AncestorDepth(c.up, l.context);
      ClimbToAncestor(l, Depth(c));
      ClimbKeepsOrder(l, Depth(c));
      if Depth(f.context) == Depth(c.up) {
        AncestorUnique(f.context, c.up, l.context);
      } else {
        assert IsAncestor(c.up.up, c.up);
        AncestorTransitive(c.up.up, c.up, l.context);
        AncestorUnique(f.context, c.up.up, l.context);
      }
    } else {
      ClimbKeepsOrder(l, 0);
    }
  }

  /** The recursion of the helper: the call on the child link, then at most one rotation here. */
  lemma SplayedStep(c: Context, t: Tree, key: Key)
    requires t.Bin? && key != t.node.key
    ensures var child := if key < t.node.key then InLeft(c, t.node, t.right) else InRight(c, t.left, t.node);
            var g := Splayed(child, if key < t.node.key then t.left else t.right, key);
            Splayed(c, t, key) == if g.context == c && !c.Top? then Rotate(g) else g
  {
    var child := if key < t.node.key then InLeft(c, t.node, t.right) else InRight(c, t.left, t.node);
    var sub := if key < t.node.key then t.left else t.right;
    LocateKeepsPlug(c, t, key);
    ClimbOneLevel(Locate(c, t, key), Depth(c));
    SplayedNear(child, sub, key);
  }

  lemma SplayedKeepsOrder(c: Context, t: Tree, key: Key)
    requires t.Bin? || !c.Top?
    ensures var f := Splayed(c, t, key); InOrder(Plug(f.context, f.tree)) == InOrder(Plug(c, t))
    ensures Splayed(c, t, key).tree.node == Locate(c, t, key).tree.node
  {
    LocateKeepsPlug(c, t, key);
    ClimbKeepsOrder(Locate(c, t, key), Depth(c));
  }

  /** Splaying a whole tree around a key: the in-order sequence is unchanged, and the root is the
      key's node or, if the key is absent, its immediate predecessor or successor. */
  lemma SplayIsSound(t: Tree, key: Key)
    requires t.Bin? && Sorted(InOrder(t))
    ensures var f := Splayed(Top, t, key);
            f.context == Top && InOrder(f.tree) == InOrder(t) && Nearest(InOrder(t), f.tree.node, key)
  {
    SplayedNear(Top, t, key);
    SplayedKeepsOrder(Top, t, key);
    LocateFindsNearest(Top, t, key);
  }

  // ----- Relinking and joining --------------------------------------------------------------------

  /** The tree that relinking builds over a sequence of nodes. */
  function Balanced(s: seq<Node>): Tree {
    if s == [] then Nil
    else
      var m := (|s| - 1) / 2;
      Bin(Balanced(s[..m]), s[m], Balanced(s[m + 1..]))
  }

  lemma {:induction false} BalancedInOrder(s: seq<Node>)
    ensures InOrder(Balanced(s)) == s
  {
    hide InOrder;
    if s == [] {
      InOrderIs(Balanced(s));
    } else {
      var m := (|s| - 1) / 2;
      BalancedInOrder(s[..m]);
      BalancedInOrder(s[m + 1..]);
      InOrderIs(Balanced(s));
      assert s == s[..m] + [s[m]] + s[m + 1..];
    }
  }

  lemma InOrderIs(t: Tree)
    ensures InOrder(t) == match t case Nil => [] case Bin(l, n, r) => InOrder(l) + [n] + InOrder(r)
  {
  }

  /** The relinked tree has the least possible height, floor(log2 n) + 1. */
  lemma {:induction false} BalancedHeight(s: seq<Node>)
    ensures |s| < Pow2(Height(Balanced(s)))
    ensures s != [] ==> Height(Balanced(s)) > 0 && Pow2(Height(Balanced(s)) - 1) <= |s|
    ensures s == [] ==> Height(Balanced(s)) == 0
  {
    hide Pow2, Height, Balanced;
    BalancedIs(s);
    if s != [] {
      var m := (|s| - 1) / 2;
      var l, r := s[..m], s[m + 1..];
      BalancedHeight(l);
      BalancedHeight(r);
      HeightOfHalves(|s|, m, Height(Balanced(l)), Height(Balanced(r)));
    }
  }

  lemma BalancedIs(s: seq<Node>)
    ensures s == [] ==> Height(Balanced(s)) == 0 && Pow2(0) == 1
    ensures s != [] ==>
      var m := (|s| - 1) / 2;
      var hl, hr := Height(Balanced(s[..m])), Height(Balanced(s[m + 1..]));
      Height(Balanced(s)) == 1 + if hl < hr then hr else hl
  {
  }

  lemma HeightOfHalves(n: nat, m: nat, hl: nat, hr: nat)
    requires n > 0 && m == (n - 1) / 2
    requires m < Pow2(hl) && n - 1 - m < Pow2(hr)
    requires m > 0 ==> hl > 0 && Pow2(hl - 1) <= m
    requires m == 0 ==> hl == 0
    requires n - 1 - m > 0 ==> hr > 0 && Pow2(hr - 1) <= n - 1 - m
    requires n - 1 - m == 0 ==> hr == 0
    ensures hl <= hr && n < Pow2(1 + hr) && Pow2(hr) <= n
  {
    if m > 0 {
      Pow2Cancel(hl - 1, hr);
    }
  }

  lemma Pow2Cancel(a: nat, b: nat)
    requires Pow2(a) < Pow2(b)
    ensures a < b
  {
    if b <= a {
      Pow2Monotonic(b, a);
    }
  }

  lemma {:induction false} Pow2Monotonic(a: nat, b: nat)
    requires a <= b
    ensures Pow2(a) <= Pow2(b)
    decreases b
  {
    if a != b {
      Pow2Monotonic(a, b - 1);
    }
  }

  /** A tree of fewer than 2^k nodes that has just been relinked is at most k high. */
  lemma BalancedHeightBound(s: seq<Node>, k: nat)
    requires |s| < Pow2(k)
    ensures Height(Balanced(s)) <= k
  {
    BalancedHeight(s);
    if s != [] {
      Pow2Cancel(Height(Balanced(s)) - 1, k);
    }
  }

  /** Hang r off the right-most node of l. */
  function Join(l: Tree, r: Tree): Tree
    requires l.Bin?
  {
    Bin(l.left, l.node, if l.right.Nil? then r else Join(l.right, r))
  }

  lemma {:induction false} JoinInOrder(l: Tree, r: Tree)
    requires l.Bin?
    ensures InOrder(Join(l, r)) == InOrder(l) + InOrder(r)
  {
    if l.right.Bin? {
      JoinInOrder(l.right, r);
    }
  }
}
