/** What splaying is for: a search may go deep, but a sequence of searches goes to logarithmic depth on the
    average, since a double rotation past a parent and a grandparent on the same side straightens the tree
    out. Each node is credited with the logarithm of the size of its subtree. */
module SplayCost {
  import opened Powers
  import opened SplayShape

  /** The logarithm, as the credit of a node with n nodes in its subtree. */
  ghost function Rank(n: nat): nat {
    if n == 0 then 0 else Log(n)
  }

  /** The credit of all nodes of a tree. */
  ghost function Potential(t: Tree): nat {
    match t
    case Nil => 0
    case Bin(l, _, r) => Potential(l) + Rank(Size(t)) + Potential(r)
  }

  /** The credit of the nodes above and beside a link with n nodes below it. */
  ghost function Above(c: Context, n: nat): nat {
    match c
    case Top => 0
    case InLeft(up, _, r) => Rank(n + 1 + Size(r)) + Potential(r) + Above(up, n + 1 + Size(r))
    case InRight(up, l, _) => Rank(Size(l) + 1 + n) + Potential(l) + Above(up, Size(l) + 1 + n)
  }

  lemma {:induction false} PotentialPlug(c: Context, t: Tree)
    ensures Potential(Plug(c, t)) == Potential(t) + Above(c, Size(t))
  {
    hide Rank, Size, Potential, Above;
    match c
    case Top => AboveTop(Size(t));
    case InLeft(up, x, r) =>
      CreditOf(t, x, r);
      AboveLeft(up, x, r, Size(t));
      PotentialPlug(up, Bin(t, x, r));
    case InRight(up, l, x) =>
      CreditOf(l, x, t);
      AboveRight(up, l, x, Size(t));
      PotentialPlug(up, Bin(l, x, t));
  }

  lemma AboveTop(n: nat)
    ensures Above(Top, n) == 0
  {
  }

  lemma CreditOf(l: Tree, x: Node, r: Tree)
    ensures Size(Bin(l, x, r)) == Size(l) + 1 + Size(r)
    ensures Potential(Bin(l, x, r)) == Potential(l) + Rank(Size(l) + 1 + Size(r)) + Potential(r)
  {
    hide Rank;
  }


  lemma RankGrows(a: nat, b: nat)
    requires a <= b
    ensures Rank(a) <= Rank(b)
  {
    if a > 0 && Log(b) < Log(a) {
      Pow2Monotonic(Log(b) + 1, Log(a));
    }
  }

  /** Of two parts of a whole one has a smaller logarithm. */
  lemma RankOfParts(a: nat, b: nat, n: nat)
    requires a > 0 && b > 0 && a + b <= n
    ensures Rank(a) < Rank(n) || Rank(b) < Rank(n)
    ensures Rank(a) <= Rank(n) && Rank(b) <= Rank(n)
  {
    RankGrows(a, n);
    RankGrows(b, n);
  }

  /** The credit of the whole tree. */
  ghost function Credit(f: Focus): nat {
    Potential(f.tree) + Above(f.context, Size(f.tree))
  }

  lemma AboveLeft(up: Context, x: Node, r: Tree, n: nat)
    ensures Above(InLeft(up, x, r), n) == Rank(n + 1 + Size(r)) + Potential(r) + Above(up, n + 1 + Size(r))
  {
    hide Rank, Size;
  }

  lemma AboveRight(up: Context, l: Tree, x: Node, n: nat)
    ensures Above(InRight(up, l, x), n) == Rank(Size(l) + 1 + n) + Potential(l) + Above(up, Size(l) + 1 + n)
  {
    hide Rank, Size;
  }

  lemma CreditIs(f: Focus)
    ensures Credit(f) == Potential(f.tree) + Above(f.context, Size(f.tree))
  {
    hide Rank, Size, Potential, Above;
  }

  lemma ZigLeftCost(a: Tree, n: Node, b: Tree, p: Node, c: Tree)
    ensures var (f, r) := (Focus(InLeft(Top, p, c), Bin(a, n, b)), Focus(Top, Bin(a, n, Bin(b, p, c))));
      1 + Credit(r) <= Credit(f) + 3 * (Rank(Size(r.tree)) - Rank(Size(f.tree))) + 1
  {
    hide *;
    var n1 := Size(a) + 1 + Size(b);
    CreditOf(a, n, b);
    CreditOf(b, p, c);
    CreditOf(a, n, Bin(b, p, c));
    AboveLeft(Top, p, c, n1);
    AboveTop(n1 + 1 + Size(c));
    CreditIs(Focus(InLeft(Top, p, c), Bin(a, n, b)));
    CreditIs(Focus(Top, Bin(a, n, Bin(b, p, c))));
    assert Size(Bin(a, n, Bin(b, p, c))) == n1 + 1 + Size(c);
    RankGrows(n1, n1 + 1 + Size(c));
    RankGrows(Size(b) + 1 + Size(c), n1 + 1 + Size(c));
  }

  lemma ZigRightCost(c: Tree, p: Node, a: Tree, n: Node, b: Tree)
    ensures var (f, r) := (Focus(InRight(Top, c, p), Bin(a, n, b)), Focus(Top, Bin(Bin(c, p, a), n, b)));
      1 + Credit(r) <= Credit(f) + 3 * (Rank(Size(r.tree)) - Rank(Size(f.tree))) + 1
  {
    hide *;
    var n1 := Size(a) + 1 + Size(b);
    CreditOf(a, n, b);
    CreditOf(c, p, a);
    CreditOf(Bin(c, p, a), n, b);
    AboveRight(Top, c, p, n1);
    AboveTop(Size(c) + 1 + n1);
    CreditIs(Focus(InRight(Top, c, p), Bin(a, n, b)));
    CreditIs(Focus(Top, Bin(Bin(c, p, a), n, b)));
    assert Size(Bin(Bin(c, p, a), n, b)) == Size(c) + 1 + n1;
    RankGrows(n1, Size(c) + 1 + n1);
    RankGrows(Size(c) + 1 + Size(a), Size(c) + 1 + n1);
  }

  lemma ZigCost(f: Focus)
    requires f.tree.Bin? && !f.context.Top? && f.context.up.Top?
    ensures 1 + Credit(Zig(f)) <= Credit(f) + 3 * (Rank(Size(Zig(f).tree)) - Rank(Size(f.tree))) + 1
  {
    hide Rank, Size, Credit;
    var Bin(a, n, b) := f.tree;
    match f.context
    case InLeft(_, p, c) => ZigLeftCost(a, n, b, p, c);
    case InRight(_, c, p) => ZigRightCost(c, p, a, n, b);
  }

  /** The arithmetic of a double rotation: sizes of the subtree of the node, of its parent and of its
      grandparent before, and of the parent and the grandparent after. */
  lemma StepCost(n: nat, p: nat, g: nat, p': nat, g': nat)
    requires 0 < n < p < g && 0 < p' < g && 0 < g' < g
    requires (g' <= p' && n + g' <= g) || p' + g' <= g
    ensures 1 + Rank(p') + Rank(g') <= Rank(n) + Rank(p) + 3 * (Rank(g) - Rank(n))
  {
    RankGrows(n, p);
    RankGrows(p, g);
    RankGrows(p', g);
    RankGrows(g', g);
    if n + g' <= g {
      RankOfParts(n, g', g);
    }
    if p' + g' <= g {
      RankOfParts(p', g', g);
    }
  }

  lemma LeftLeftCost(up: Context, b: Tree, n: Node, c: Tree, p: Node, d: Tree, g: Node, e: Tree)
    ensures var (f, r) := (Focus(InLeft(InLeft(up, g, e), p, d), Bin(b, n, c)), Focus(up, Bin(b, n, Bin(c, p, Bin(d, g, e)))));
      1 + Credit(r) <= Credit(f) + 3 * (Rank(Size(r.tree)) - Rank(Size(f.tree)))
  {
    hide *;
    var (t, n1) := (Bin(b, n, c), Size(b) + 1 + Size(c));
    CreditOf(b, n, c);
    CreditOf(d, g, e);
    CreditOf(c, p, Bin(d, g, e));
    CreditOf(b, n, Bin(c, p, Bin(d, g, e)));
    AboveLeft(InLeft(up, g, e), p, d, n1);
    AboveLeft(up, g, e, n1 + 1 + Size(d));
    CreditIs(Focus(InLeft(InLeft(up, g, e), p, d), t));
    CreditIs(Focus(up, Bin(b, n, Bin(c, p, Bin(d, g, e)))));
    assert Size(Bin(b, n, Bin(c, p, Bin(d, g, e)))) == n1 + 1 + Size(d) + 1 + Size(e);
    StepCost(n1, n1 + 1 + Size(d), n1 + 1 + Size(d) + 1 + Size(e), Size(c) + 1 + (Size(d) + 1 + Size(e)), Size(d) + 1 + Size(e));
  }

  lemma RightRightCost(up: Context, e: Tree, g: Node, d: Tree, p: Node, b: Tree, n: Node, c: Tree)
    ensures var (f, r) := (Focus(InRight(InRight(up, e, g), d, p), Bin(b, n, c)), Focus(up, Bin(Bin(Bin(e, g, d), p, b), n, c)));
      1 + Credit(r) <= Credit(f) + 3 * (Rank(Size(r.tree)) - Rank(Size(f.tree)))
  {
    hide *;
    var (t, n1) := (Bin(b, n, c), Size(b) + 1 + Size(c));
    CreditOf(b, n, c);
    CreditOf(e, g, d);
    CreditOf(Bin(e, g, d), p, b);
    CreditOf(Bin(Bin(e, g, d), p, b), n, c);
    AboveRight(InRight(up, e, g), d, p, n1);
    AboveRight(up, e, g, Size(d) + 1 + n1);
    CreditIs(Focus(InRight(InRight(up, e, g), d, p), t));
    CreditIs(Focus(up, Bin(Bin(Bin(e, g, d), p, b), n, c)));
    assert Size(Bin(Bin(Bin(e, g, d), p, b), n, c)) == Size(e) + 1 + (Size(d) + 1 + n1);
    StepCost(n1, Size(d) + 1 + n1, Size(e) + 1 + (Size(d) + 1 + n1), Size(e) + 1 + Size(d) + 1 + Size(b), Size(e) + 1 + Size(d));
  }

  lemma LeftOfRightCost(up: Context, a: Tree, g: Node, b: Tree, n: Node, c: Tree, p: Node, d: Tree)
    ensures var (f, r) := (Focus(InLeft(InRight(up, a, g), p, d), Bin(b, n, c)), Focus(up, Bin(Bin(a, g, b), n, Bin(c, p, d))));
      1 + Credit(r) <= Credit(f) + 3 * (Rank(Size(r.tree)) - Rank(Size(f.tree)))
  {
    hide *;
    var (t, n1) := (Bin(b, n, c), Size(b) + 1 + Size(c));
    CreditOf(b, n, c);
    CreditOf(a, g, b);
    CreditOf(c, p, d);
    CreditOf(Bin(a, g, b), n, Bin(c, p, d));
    AboveLeft(InRight(up, a, g), p, d, n1);
    AboveRight(up, a, g, n1 + 1 + Size(d));
    CreditIs(Focus(InLeft(InRight(up, a, g), p, d), t));
    CreditIs(Focus(up, Bin(Bin(a, g, b), n, Bin(c, p, d))));
    assert Size(Bin(Bin(a, g, b), n, Bin(c, p, d))) == Size(a) + 1 + (n1 + 1 + Size(d));
    StepCost(n1, n1 + 1 + Size(d), Size(a) + 1 + (n1 + 1 + Size(d)), Size(c) + 1 + Size(d), Size(a) + 1 + Size(b));
  }

  lemma RightOfLeftCost(up: Context, a: Tree, p: Node, b: Tree, n: Node, c: Tree, g: Node, d: Tree)
    ensures var (f, r) := (Focus(InRight(InLeft(up, g, d), a, p), Bin(b, n, c)), Focus(up, Bin(Bin(a, p, b), n, Bin(c, g, d))));
      1 + Credit(r) <= Credit(f) + 3 * (Rank(Size(r.tree)) - Rank(Size(f.tree)))
  {
    hide *;
    var (t, n1) := (Bin(b, n, c), Size(b) + 1 + Size(c));
    CreditOf(b, n, c);
    CreditOf(a, p, b);
    CreditOf(c, g, d);
    CreditOf(Bin(a, p, b), n, Bin(c, g, d));
    AboveRight(InLeft(up, g, d), a, p, n1);
    AboveLeft(up, g, d, Size(a) + 1 + n1);
    CreditIs(Focus(InRight(InLeft(up, g, d), a, p), t));
    CreditIs(Focus(up, Bin(Bin(a, p, b), n, Bin(c, g, d))));
    assert Size(Bin(Bin(a, p, b), n, Bin(c, g, d))) == Size(a) + 1 + n1 + 1 + Size(d);
    StepCost(n1, Size(a) + 1 + n1, Size(a) + 1 + n1 + 1 + Size(d), Size(a) + 1 + Size(b), Size(c) + 1 + Size(d));
  }

  lemma ZigZigCost(f: Focus)
    requires f.tree.Bin? && !f.context.Top? && !f.context.up.Top?
    ensures 1 + Credit(ZigZig(f)) <= Credit(f) + 3 * (Rank(Size(ZigZig(f).tree)) - Rank(Size(f.tree)))
  {
    hide Rank, Size, Credit;
    var Bin(b, n, c) := f.tree;
    match f.context
    case InLeft(InLeft(up, g, e), p, d) => LeftLeftCost(up, b, n, c, p, d, g, e);
    case InRight(InRight(up, e, g), d, p) => RightRightCost(up, e, g, d, p, b, n, c);
    case InLeft(InRight(up, a, g), p, d) => LeftOfRightCost(up, a, g, b, n, c, p, d);
    case InRight(InLeft(up, g, d), a, p) => RightOfLeftCost(up, a, p, b, n, c, g, d);
  }

  /** How many rotations, single or double, take a node to the root. */
  function Steps(f: Focus): nat
    requires f.tree.Bin?
    decreases Depth(f.context)
  {
    if f.context.Top? then 0 else 1 + Steps(Rotate(f))
  }

  lemma {:induction false} StepsCoverDepth(f: Focus)
    requires f.tree.Bin?
    ensures Depth(f.context) <= 2 * Steps(f)
    decreases Depth(f.context)
  {
    if !f.context.Top? {
      StepsCoverDepth(Rotate(f));
    }
  }

  lemma RotateCost(f: Focus)
    requires f.tree.Bin? && !f.context.Top?
    ensures 1 + Credit(Rotate(f)) <= Credit(f) + 3 * (Rank(Size(Rotate(f).tree)) - Rank(Size(f.tree))) + One(f.context.up.Top?)
  {
    hide Credit, Log;
    if f.context.up.Top? {
      ZigCost(f);
    } else {
      ZigZigCost(f);
    }
  }

  function One(b: bool): nat {
    if b then 1 else 0
  }

  /** The way to the root is paid for by what the tree loses in credit, but for a logarithm. */
  lemma {:induction false} ClimbCost(f: Focus)
    requires f.tree.Bin?
    ensures Steps(f) + Credit(Climb(f, 0)) <= Credit(f) + 3 * (Rank(Size(Climb(f, 0).tree)) - Rank(Size(f.tree))) + 1
    decreases Depth(f.context)
  {
    hide Credit, Log, Size, Rotate;
    if !f.context.Top? {
      RotateCost(f);
      if f.context.up.Top? {
        RotateEnds(f);
        assert Climb(Rotate(f), 0) == Rotate(f) && Steps(Rotate(f)) == 0;
      } else {
        ClimbCost(Rotate(f));
      }
    }
  }

  lemma RotateEnds(f: Focus)
    requires f.tree.Bin? && !f.context.Top? && f.context.up.Top?
    ensures Rotate(f).context.Top?
  {
  }

  // ----- Searches ---------------------------------------------------------------------------------

  /** How many nodes the search for a key looks at. */
  function Visited(t: Tree, key: Key): nat
    requires t.Bin?
  {
    Depth(Locate(Top, t, key).context) + 1
  }

  /** The tree after a search. */
  function AfterSearch(t: Tree, key: Key): (r: Tree)
    requires t.Bin?
    ensures r.Bin?
  {
    Splayed(Top, t, key).tree
  }

  lemma TopCredit(t: Tree)
    requires t.Bin?
    ensures Credit(Focus(Top, t)) == Potential(t)
  {
    AboveTop(Size(t));
    hide Rank, Size, Potential;
  }

  /** A search looks at few nodes, or makes the tree a better one: what it costs beyond a logarithm is paid for
      by a loss of credit. */
  lemma SearchCost(t: Tree, key: Key)
    requires t.Bin?
    ensures Visited(t, key) + 2 * Potential(AfterSearch(t, key)) <= 2 * Potential(t) + 6 * Rank(Size(t)) + 3
    ensures Size(AfterSearch(t, key)) == Size(t)
  {
    hide *;
    var f := Locate(Top, t, key);
    VisitedIs(t, key);
    StepsCoverDepth(f);
    ClimbCost(f);
    LocateKeepsPlug(Top, t, key);
    PotentialPlug(f.context, f.tree);
    SizePlug(f.context, f.tree);
    SplayedNear(Top, t, key);
    SplayedKeepsOrder(Top, t, key);
    AfterIs(t, key);
    SizeIs(t);
    SizeIs(AfterSearch(t, key));
    CreditIs(f);
    TopCredit(AfterSearch(t, key));
  }

  lemma VisitedIs(t: Tree, key: Key)
    requires t.Bin?
    ensures Visited(t, key) == Depth(Locate(Top, t, key).context) + 1 && Locate(Top, t, key).tree.Bin?
    ensures Plug(Top, t) == t
  {
    hide Locate, Depth;
  }

  lemma AfterIs(t: Tree, key: Key)
    requires t.Bin? && Splayed(Top, t, key).context == Top
    ensures Climb(Locate(Top, t, key), 0) == Splayed(Top, t, key) == Focus(Top, AfterSearch(t, key))
    ensures Plug(Top, AfterSearch(t, key)) == AfterSearch(t, key)
  {
    hide Locate, Climb;
  }

  lemma SizePlug(c: Context, t: Tree)
    ensures Size(t) <= Size(Plug(c, t))
  {
    InOrderPlug(c, t);
  }

  lemma SizeIs(t: Tree)
    ensures Size(t) == |InOrder(t)|
  {
  }

  lemma {:induction false} PotentialBound(t: Tree)
    ensures Potential(t) <= Size(t) * Rank(Size(t))
  {
    hide Rank, Size, Potential;
    match t
    case Nil => NoCredit();
    case Bin(l, x, r) =>
      CreditOf(l, x, r);
      PotentialBound(l);
      PotentialBound(r);
      var n := Size(l) + 1 + Size(r);
      RankGrows(Size(l), n);
      RankGrows(Size(r), n);
      Product(Size(l), Rank(Size(l)), Rank(n));
      Product(Size(r), Rank(Size(r)), Rank(n));
      Distribute(Size(l), Size(r), Rank(n));
  }

  lemma NoCredit()
    ensures Potential(Nil) == 0 && Size(Nil) == 0
  {
  }

  lemma Distribute(a: nat, b: nat, k: nat)
    ensures a * k + k + b * k == (a + 1 + b) * k
  {
  }

  lemma Product(n: nat, a: nat, b: nat)
    requires a <= b
    ensures n * a <= n * b
  {
  }

  /** The nodes that a sequence of searches looks at. */
  function AllVisited(t: Tree, keys: seq<Key>): nat
    requires t.Bin?
    decreases |keys|
  {
    if keys == [] then 0 else Visited(t, keys[0]) + AllVisited(AfterSearch(t, keys[0]), keys[1..])
  }

  lemma {:induction false} SearchesCost(t: Tree, keys: seq<Key>)
    requires t.Bin?
    ensures AllVisited(t, keys) <= 2 * Potential(t) + |keys| * (6 * Rank(Size(t)) + 3)
    decreases |keys|
  {
    hide Visited, Potential, Rank, Size, AfterSearch;
    if keys != [] {
      SearchCost(t, keys[0]);
      SearchesCost(AfterSearch(t, keys[0]), keys[1..]);
      var c := 6 * Rank(Size(t)) + 3;
      assert |keys| * c == c + |keys[1..]| * c;
    }
  }

  /** The searches of any keys in any tree of n nodes, however unbalanced: m of them look at no more than
      m (6 log n + 3) + 2 n log n nodes. */
  lemma SearchesAreLogarithmic(t: Tree, keys: seq<Key>)
    requires t.Bin?
    ensures Size(t) > 0 && AllVisited(t, keys) <= |keys| * (6 * Log(Size(t)) + 3) + 2 * (Size(t) * Log(Size(t)))
  {
    SearchesCost(t, keys);
    PotentialBound(t);
    RankIsLog(Size(t));
    hide Log, AllVisited, Potential;
  }

  lemma RankIsLog(n: nat)
    ensures n > 0 ==> Rank(n) == Log(n)
  {
  }
}
