/** Three ways to multiply matrices (MM/MM1.c, MM/MM2.c and MM/MM3.c) that add up the same products in
    the same order. Nothing is assumed about addition and multiplication: they may round, and addition
    need not be associative. */
module MatrixMultiply {

  datatype Ops<!T> = Ops(add: (T, T) -> T, mul: (T, T) -> T)

  predicate Square<T>(m: array2<T>, n: nat) {
    m.Length0 == n && m.Length1 == n
  }

  /** c with the products of row i of a and column j of b in [from, end) added, in order. */
  function Sum<T>(ops: Ops<T>, a: array2<T>, b: array2<T>, c: T, i: nat, j: nat, from: nat, end: nat): T
    requires i < a.Length0 && from <= end <= a.Length1 && end <= b.Length0 && j < b.Length1
    reads a, b
    decreases end
  {
    if end == from then c
    else ops.add(Sum(ops, a, b, c, i, j, from, end - 1), ops.mul(a[i, end - 1], b[end - 1, j]))
  }

  /** What C[i][j] is after the first k products have been added to c, in order. */
  function Dot<T>(ops: Ops<T>, a: array2<T>, b: array2<T>, c: T, i: nat, j: nat, k: nat): T
    requires i < a.Length0 && k <= a.Length1 && k <= b.Length0 && j < b.Length1
    reads a, b
  {
    Sum(ops, a, b, c, i, j, 0, k)
  }

  /** mm1: each element in one go. */
  method MM1<T>(ops: Ops<T>, a: array2<T>, b: array2<T>, c: array2<T>, n: nat)
    requires Square(a, n) && Square(b, n) && Square(c, n) && c != a && c != b
    modifies c
    ensures forall i, j | 0 <= i < n && 0 <= j < n :: c[i, j] == Dot(ops, a, b, old(c[i, j]), i, j, n)
  {
    for i := 0 to n
      invariant forall x, y | 0 <= x < n && 0 <= y < n ::
        c[x, y] == Dot(ops, a, b, old(c[x, y]), x, y, if x < i then n else 0)
    {
      for j := 0 to n
        invariant forall x, y | 0 <= x < n && 0 <= y < n ::
          c[x, y] == Dot(ops, a, b, old(c[x, y]), x, y, if x < i || (x == i && y < j) then n else 0)
      {
        for k := 0 to n
          invariant forall x, y | 0 <= x < n && 0 <= y < n ::
            c[x, y] == Dot(ops, a, b, old(c[x, y]), x, y,
                           if x < i || (x == i && y < j) then n else if x == i && y == j then k else 0)
        {
          c[i, j] := ops.add(c[i, j], ops.mul(a[i, k], b[k, j]));
        }
      }
    }
  }

  /** mm2: a row at a time, one product for each element of the row. */
  method MM2<T>(ops: Ops<T>, a: array2<T>, b: array2<T>, c: array2<T>, n: nat)
    requires Square(a, n) && Square(b, n) && Square(c, n) && c != a && c != b
    modifies c
    ensures forall i, j | 0 <= i < n && 0 <= j < n :: c[i, j] == Dot(ops, a, b, old(c[i, j]), i, j, n)
  {
    for i := 0 to n
      invariant forall x, y | 0 <= x < n && 0 <= y < n ::
        c[x, y] == Dot(ops, a, b, old(c[x, y]), x, y, if x < i then n else 0)
    {
      for k := 0 to n
        invariant forall x, y | 0 <= x < n && 0 <= y < n ::
          c[x, y] == Dot(ops, a, b, old(c[x, y]), x, y, if x < i then n else if x == i then k else 0)
      {
        for j := 0 to n
          invariant forall x, y | 0 <= x < n && 0 <= y < n ::
            c[x, y] == Dot(ops, a, b, old(c[x, y]), x, y,
                           if x < i then n else if x == i then (if y < j then k + 1 else k) else 0)
        {
          c[i, j] := ops.add(c[i, j], ops.mul(a[i, k], b[k, j]));
        }
      }
    }
  }

  /** Tiles stay inside the matrix exactly when the tile size divides the matrix size: mm3 does not
      cut the last tile short. */
  lemma TilesFitIff(n: nat, size: nat)
    requires size > 0
    ensures (forall q: nat :: q * size < n ==> q * size + size <= n) <==> n % size == 0
  {
    var m := Quotient(n, size);
    if n % size == 0 {
      forall q: nat | q * size < n
        ensures q * size + size <= n
      {
        Below(q, m, size);
      }
    } else {
      assert m * size < n && m * size + size > n;
    }
  }

  lemma Times(x: int, y: int, n: nat)
    requires x <= y
    ensures x * n <= y * n
  {
  }

  lemma Quotient(n: nat, size: nat) returns (m: nat)
    requires size > 0
    ensures n == m * size + n % size
  {
    m := n / size;
  }

  lemma Below(q: int, m: int, size: nat)
    requires q * size < m * size
    ensures q * size + size <= m * size
  {
    if q >= m {
      Times(m, q, size);
    } else {
      Times(q + 1, m, size);
    }
  }

  lemma NextTile(n: nat, size: nat, at: nat)
    requires size > 0 && n % size == 0 && at % size == 0 && at < n
    ensures at + size <= n && (at + size) % size == 0
  {
    var m := Quotient(n, size);
    var q := Quotient(at, size);
    Below(q, m, size);
    var p := Quotient(at + size, size);
    Remainder(p, q + 1, size, (at + size) % size);
  }

  lemma Remainder(p: int, q: int, size: nat, r: int)
    requires 0 <= r < size && p * size + r == q * size
    ensures r == 0
  {
    if p < q {
      Times(p + 1, q, size);
    } else {
      Times(q, p, size);
    }
  }

  /** Adding the products of two neighbouring ranges one after the other adds those of both. */
  lemma {:induction false} DotJoins<T>(ops: Ops<T>, a: array2<T>, b: array2<T>, c: T, i: nat, j: nat,
                                       from: nat, mid: nat, end: nat)
    requires i < a.Length0 && from <= mid <= end <= a.Length1 && end <= b.Length0 && j < b.Length1
    ensures Sum(ops, a, b, Sum(ops, a, b, c, i, j, from, mid), i, j, mid, end)
         == Sum(ops, a, b, c, i, j, from, end)
    decreases end
  {
    if mid < end {
      DotJoins(ops, a, b, c, i, j, from, mid, end - 1);
    }
  }

  /** The products of row i of a and column j of b. */
  function Products<T>(ops: Ops<T>, a: array2<T>, b: array2<T>, i: nat, j: nat, n: nat): seq<T>
    requires i < a.Length0 && n <= a.Length1 && n <= b.Length0 && j < b.Length1
    reads a, b
  {
    seq(n, k requires 0 <= k < n reads a, b => ops.mul(a[i, k], b[k, j]))
  }

  function Fold<T>(add: (T, T) -> T, c: T, xs: seq<T>): T {
    if xs == [] then c else Fold(add, add(c, xs[0]), xs[1..])
  }

  lemma {:induction false} FoldOneMore<T>(add: (T, T) -> T, c: T, xs: seq<T>, x: T)
    ensures Fold(add, c, xs + [x]) == add(Fold(add, c, xs), x)
  {
    if xs == [] {
      assert [x][1..] == [];
    } else {
      assert (xs + [x])[1..] == xs[1..] + [x];
      FoldOneMore(add, add(c, xs[0]), xs[1..], x);
    }
  }

  /** What the three methods compute for each element: all n products of its row and column, and no others,
      added up one after the other. */
  lemma {:induction false} DotIsFold<T>(ops: Ops<T>, a: array2<T>, b: array2<T>, c: T, i: nat, j: nat, n: nat)
    requires i < a.Length0 && n <= a.Length1 && n <= b.Length0 && j < b.Length1
    ensures Dot(ops, a, b, c, i, j, n) == Fold(ops.add, c, Products(ops, a, b, i, j, n))
    decreases n
  {
    if n > 0 {
      DotIsFold(ops, a, b, c, i, j, n - 1);
      assert Products(ops, a, b, i, j, n) == Products(ops, a, b, i, j, n - 1) + [ops.mul(a[i, n - 1], b[n - 1, j])];
      FoldOneMore(ops.add, c, Products(ops, a, b, i, j, n - 1), ops.mul(a[i, n - 1], b[n - 1, j]));
    }
  }

  /** One row of a tile. */
  method TileRow<T>(ops: Ops<T>, a: array2<T>, b: array2<T>, c: array2<T>, n: nat, size: nat,
                    kk: nat, jj: nat, i: nat)
    requires Square(a, n) && Square(b, n) && Square(c, n) && c != a && c != b
    requires kk + size <= n && jj + size <= n && i < n
    modifies c
    ensures forall x, y | 0 <= x < n && 0 <= y < n ::
      c[x, y] == if x == i && jj <= y < jj + size then Sum(ops, a, b, old(c[x, y]), x, y, kk, kk + size)
                 else old(c[x, y])
  {
    for k := kk to kk + size
      invariant forall x, y | 0 <= x < n && 0 <= y < n ::
        c[x, y] == if x == i && jj <= y < jj + size then Sum(ops, a, b, old(c[x, y]), x, y, kk, k)
                   else old(c[x, y])
    {
      var r := a[i, k];
      for j := jj to jj + size
        invariant forall x, y | 0 <= x < n && 0 <= y < n ::
          c[x, y] == if x == i && jj <= y < jj + size
                     then Sum(ops, a, b, old(c[x, y]), x, y, kk, if y < j then k + 1 else k)
                     else old(c[x, y])
      {
        c[i, j] := ops.add(c[i, j], ops.mul(r, b[k, j]));
      }
    }
  }

  /** One tile, in all rows. */
  method Tile<T>(ops: Ops<T>, a: array2<T>, b: array2<T>, c: array2<T>, n: nat, size: nat, kk: nat, jj: nat)
    requires Square(a, n) && Square(b, n) && Square(c, n) && c != a && c != b
    requires kk + size <= n && jj + size <= n
    modifies c
    ensures forall x, y | 0 <= x < n && 0 <= y < n ::
      c[x, y] == if jj <= y < jj + size then Sum(ops, a, b, old(c[x, y]), x, y, kk, kk + size)
                 else old(c[x, y])
  {
    hide Sum;
    for i := 0 to n
      invariant forall x, y | 0 <= x < n && 0 <= y < n ::
        c[x, y] == if x < i && jj <= y < jj + size then Sum(ops, a, b, old(c[x, y]), x, y, kk, kk + size)
                   else old(c[x, y])
    {
      TileRow(ops, a, b, c, n, size, kk, jj, i);
    }
  }

  /** mm3: tile by tile. */
  method MM3<T>(ops: Ops<T>, a: array2<T>, b: array2<T>, c: array2<T>, n: nat, size: nat)
    requires Square(a, n) && Square(b, n) && Square(c, n) && c != a && c != b
    requires size > 0 && n % size == 0
    modifies c
    ensures forall i, j | 0 <= i < n && 0 <= j < n :: c[i, j] == Dot(ops, a, b, old(c[i, j]), i, j, n)
  {
    var kk := 0;
    while kk < n
      invariant kk <= n && kk % size == 0
      invariant forall x, y | 0 <= x < n && 0 <= y < n :: c[x, y] == Dot(ops, a, b, old(c[x, y]), x, y, kk)
    {
      NextTile(n, size, kk);
      TileColumns(ops, a, b, c, n, size, kk);
      forall x, y | 0 <= x < n && 0 <= y < n
        ensures c[x, y] == Dot(ops, a, b, old(c[x, y]), x, y, kk + size)
      {
        DotJoins(ops, a, b, old(c[x, y]), x, y, 0, kk, kk + size);
      }
      kk := kk + size;
    }
  }

  /** The tiles of one range of products, in all columns. */
  method TileColumns<T>(ops: Ops<T>, a: array2<T>, b: array2<T>, c: array2<T>, n: nat, size: nat, kk: nat)
    requires Square(a, n) && Square(b, n) && Square(c, n) && c != a && c != b
    requires size > 0 && n % size == 0 && kk + size <= n
    modifies c
    ensures forall x, y | 0 <= x < n && 0 <= y < n ::
      c[x, y] == Sum(ops, a, b, old(c[x, y]), x, y, kk, kk + size)
  {
    hide Sum;
    var jj := 0;
    while jj < n
      invariant jj <= n && jj % size == 0
      invariant forall x, y | 0 <= x < n && 0 <= y < n ::
        c[x, y] == if y < jj then Sum(ops, a, b, old(c[x, y]), x, y, kk, kk + size) else old(c[x, y])
    {
      NextTile(n, size, jj);
      Tile(ops, a, b, c, n, size, kk, jj);
      jj := jj + size;
    }
  }
}
